/**
 Page frames: the free frames of the two memory zones, and for every frame in use the list
 of its owners.  This file states what the functions of the page buffer do to these values;
 FrameBuffer.dfy proves that the stacks and linked lists of the kernel do the same.
 */
module Frames {
  import opened BlockLists

  const PAGE: nat := 4096
  const KERNEL: nat := 1                        // SID_PLACEHOLDER_KERNEL
  const VAS_KERNEL_START: nat := 0xC000_0000
  const NORMAL_END: nat := 896 * 1024 * 1024    // the first address of the high zone

  /** A user of a page frame: process and address of the page in its address space. */
  datatype User = User(pid: nat, adr: nat)

  /**
   own: the owners of each frame in use, latest first; entries: the number of free
   share-table entries; normal, high: the free frames, next one first.
   */
  datatype Buffer = Buffer(start: nat, size: nat, own: map<nat, seq<User>>, entries: nat, normal: seq<nat>, high: seq<nat>)

  function Owners(b: Buffer, f: nat): seq<User> {
    if f in b.own then b.own[f] else []
  }

  /** The range test of the functions that free frames. */
  predicate InRange(b: Buffer, f: nat) {
    b.start <= f <= b.start + b.size
  }

  /** kmem_alloc_kernel_pageframe. */
  function AllocKernel(b: Buffer): Option<(Buffer, nat)> {
    if b.normal == [] then None
    else
      var f := b.normal[0];
      Some((b.(normal := b.normal[1..], own := b.own[f := [User(KERNEL, f + VAS_KERNEL_START)]]), f))
  }

  /** kmem_alloc_user_pageframe: the high zone first. */
  function AllocUser(b: Buffer, u: User): Option<(Buffer, nat)> {
    if b.high != [] then Some((b.(high := b.high[1..], own := b.own[b.high[0] := [u]]), b.high[0]))
    else if b.normal != [] then Some((b.(normal := b.normal[1..], own := b.own[b.normal[0] := [u]]), b.normal[0]))
    else None
  }

  /** kmem_free_kernel_pageframe. */
  function FreeKernel(b: Buffer, f: nat): Buffer {
    if !InRange(b, f) then b
    else
      var b1 := b.(own := b.own - {f});
      if f >= NORMAL_END then b1.(high := [f] + b.high) else b1.(normal := [f] + b.normal)
  }

  /** The number of share-table entries that n owners take: a single owner needs none. */
  function EntriesFor(n: nat): nat {
    if n >= 2 then n else 0
  }

  /** Wrapped: the 16-bit usage counter has run over. */
  datatype AddResult = Added(b: Buffer) | NoEntries | Wrapped

  /** The part of sysc_map that makes u an owner of frame f. */
  function AddOwner(b: Buffer, f: nat, u: User): AddResult
    requires f in b.own
  {
    var n := |b.own[f]|;
    var need := EntriesFor(n + 1) - EntriesFor(n);
    if b.entries < need then NoEntries
    else if n + 1 == 0x1_0000 then Wrapped
    else Added(b.(own := b.own[f := [u] + b.own[f]], entries := b.entries - need))
  }

  /** s without the first occurrence of u. */
  function Drop(s: seq<User>, u: User): (r: seq<User>)
    ensures u in s ==> |r| == |s| - 1
    ensures u !in s ==> r == s
  {
    if s == [] then [] else if s[0] == u then s[1..] else [s[0]] + Drop(s[1..], u)
  }

  /** Crashed: the list of free share-table entries is empty and NULL is dereferenced. */
  datatype FreeResult = Done(b: Buffer) | Crashed

  /** kmem_free_user_pageframe; a user that does not own the frame changes nothing. */
  function FreeUser(b: Buffer, f: nat, u: User): FreeResult {
    var s := Owners(b, f);
    if !InRange(b, f) || u !in s then Done(b)
    else if |s| == 1 then Done(FreeKernel(b, f))
    else if b.entries == 0 then Crashed
    else Done(b.(own := b.own[f := Drop(s, u)], entries := b.entries + EntriesFor(|s|) - EntriesFor(|s| - 1)))
  }

  // ---------------------------------------------------------------- the frame invariant

  predicate IsFrame(b: Buffer, f: nat) {
    f % PAGE == 0 && b.start <= f < b.start + b.size
  }

  /** Every frame is in use or on exactly one zone stack, once: the stack its address belongs to. */
  ghost predicate Zoned(b: Buffer) {
    && NoDup(b.normal) && NoDup(b.high)
    && (forall f :: f in b.normal ==> IsFrame(b, f) && f < NORMAL_END && f !in b.own)
    && (forall f :: f in b.high ==> IsFrame(b, f) && f >= NORMAL_END && f !in b.own)
    && (forall f :: f in b.own ==> IsFrame(b, f) && 0 < |b.own[f]| < 0x1_0000)
    && (forall f :: IsFrame(b, f) ==> f in b.own || f in b.normal || f in b.high)
  }

  ghost predicate Locked(k: Key) { true }

  /** Zoned kept folded, as Listed is. */
  ghost predicate InZones(b: Buffer) {
    forall k: Key {:trigger Locked(k)} :: Locked(k) ==> Zoned(b)
  }

  lemma OpenZones(b: Buffer)
    requires InZones(b)
    ensures Zoned(b)
  {
    assert Locked(Key);
  }

  lemma UsedFrame(b: Buffer, f: nat)
    requires InZones(b) && f in b.own
    ensures 0 < |b.own[f]| < 0x1_0000 && InRange(b, f) && f % PAGE == 0
  {
    OpenZones(b);
  }

  lemma AddOwnerKeeps(b: Buffer, f: nat, u: User)
    requires InZones(b) && f in b.own
    ensures AddOwner(b, f, u).Added? ==> InZones(AddOwner(b, f, u).b)
  {
    OpenZones(b);
    if AddOwner(b, f, u).Added? { AddOwnerZoned(b, f, u); }
  }

  lemma FreeUserKeeps(b: Buffer, f: nat, u: User)
    requires InZones(b)
    ensures FreeUser(b, f, u).Done? ==> InZones(FreeUser(b, f, u).b)
  {
    OpenZones(b);
    if FreeUser(b, f, u).Done? { FreeUserZoned(b, f, u); }
  }

  lemma AllocKernelZoned(b: Buffer)
    requires Zoned(b) && AllocKernel(b).Some?
    ensures var (b', f) := AllocKernel(b).value;
            Zoned(b') && f !in b.own && IsFrame(b, f) && b'.own == b.own[f := [User(KERNEL, f + VAS_KERNEL_START)]]
  {
    PopNoDup(b.normal);
  }

  lemma AllocUserZoned(b: Buffer, u: User)
    requires Zoned(b) && AllocUser(b, u).Some?
    ensures var (b', f) := AllocUser(b, u).value;
            Zoned(b') && f !in b.own && IsFrame(b, f) && b'.own == b.own[f := [u]]
  {
    if b.high != [] { PopNoDup(b.high); } else { PopNoDup(b.normal); }
  }

  /**
   Which frame is handed out: one of the normal zone to the kernel; to a process one of the high
   zone while there is any.  It is the one that was freed last.
   */
  lemma AllocOrder(b: Buffer, u: User)
    requires Zoned(b)
    ensures AllocKernel(b).None? <==> b.normal == []
    ensures AllocKernel(b).Some? ==> var (b', f) := AllocKernel(b).value; b.normal == [f] + b'.normal && b'.high == b.high && f < 0x3800_0000
    ensures AllocUser(b, u).None? <==> b.normal == [] && b.high == []
    ensures AllocUser(b, u).Some? ==>
              var (b', f) := AllocUser(b, u).value;
              if f >= 0x3800_0000 then b.high == [f] + b'.high && b'.normal == b.normal
              else b.high == [] && b'.high == [] && b.normal == [f] + b'.normal
  {
    if b.high != [] { assert b.high[0] in b.high; }
    if b.normal != [] { assert b.normal[0] in b.normal; }
  }

  /**
   A frame given back by the kernel is handed out next in its zone.  The range test lets the
   address behind the last frame pass, and nothing else that is no frame address.
   */
  lemma GivenNext(b: Buffer, f: nat)
    ensures var b' := FreeKernel(b, f);
            if f < b.start || f > b.start + b.size then b' == b
            else && b'.own == b.own - {f} && b'.entries == b.entries
                 && (f < 0x3800_0000 ==>
                      b'.normal == [f] + b.normal && b'.high == b.high && AllocKernel(b').Some? && AllocKernel(b').value.1 == f)
                 && (f >= 0x3800_0000 ==>
                      b'.high == [f] + b.high && b'.normal == b.normal && forall u :: AllocUser(b', u).Some? && AllocUser(b', u).value.1 == f)
  {
  }

  lemma PopNoDup<T(!new)>(s: seq<T>)
    requires s != [] && NoDup(s)
    ensures NoDup(s[1..]) && s[0] !in s[1..] && s[0] in s && forall f :: f in s <==> f == s[0] || f in s[1..]
  {
    assert s == [s[0]] + s[1..];
  }

  lemma FreeKernelZoned(b: Buffer, f: nat)
    requires Zoned(b) && f in b.own
    ensures Zoned(FreeKernel(b, f)) && FreeKernel(b, f).own == b.own - {f} && FreeKernel(b, f).entries == b.entries
  {
  }

  lemma AddOwnerZoned(b: Buffer, f: nat, u: User)
    requires Zoned(b) && f in b.own && AddOwner(b, f, u).Added?
    ensures Zoned(AddOwner(b, f, u).b)
  {
  }

  lemma FreeUserZoned(b: Buffer, f: nat, u: User)
    requires Zoned(b) && FreeUser(b, f, u).Done?
    ensures Zoned(FreeUser(b, f, u).b)
  {
    if f in b.own && u in b.own[f] && |b.own[f]| == 1 { FreeKernelZoned(b, f); }
  }

  ghost predicate Covers(b: Buffer, all: set<nat>) {
    forall f :: f in all <==> IsFrame(b, f)
  }

  /** Free and used frames together are always all the frames of the buffer: none is lost, none appears. */
  lemma FrameConservation(b: Buffer, all: set<nat>)
    requires Zoned(b) && Covers(b, all)
    ensures |b.normal| + |b.high| + |b.own.Keys| == |all|
  {
    var n, h := Elems(b.normal), Elems(b.high);
    SetOfSize(b.normal);
    SetOfSize(b.high);
    UnionSize(n, h);
    UnionSize(n + h, b.own.Keys);
    assert all == n + h + b.own.Keys;
  }

  ghost function Elems<T(!new)>(s: seq<T>): set<T> {
    set f | f in s
  }

  lemma UnionSize<T>(a: set<T>, b: set<T>)
    requires a !! b
    ensures |a + b| == |a| + |b|
  {
    assert (a + b) - a == b;
  }

  lemma {:induction false} SetOfSize<T(!new)>(s: seq<T>)
    requires NoDup(s)
    ensures |Elems(s)| == |s|
  {
    if s == [] {
      assert Elems(s) == {};
    } else {
      PopNoDup(s);
      SetOfSize(s[1..]);
      assert Elems(s) == Elems(s[1..]) + {s[0]};
    }
  }

  // ---------------------------------------------------------------- runs

  /** Calls of the page buffer: the two allocations, one more owner, and the two ways to give a frame back. */
  datatype FrameOp = TakeKernel | TakeUser(u: User) | Share(f: nat, u: User) | GiveKernel(f: nat) | GiveUser(f: nat, u: User)

  /** One call; None when NULL is dereferenced, a usage counter runs over or a frame that is not in use is shared. */
  function FrameStep(b: Buffer, op: FrameOp): Option<Buffer> {
    match op
    case TakeKernel => Some(if AllocKernel(b).Some? then AllocKernel(b).value.0 else b)
    case TakeUser(u) => Some(if AllocUser(b, u).Some? then AllocUser(b, u).value.0 else b)
    case Share(f, u) =>
      if f !in b.own then None
      else (match AddOwner(b, f, u) case Added(b') => Some(b') case NoEntries => Some(b) case Wrapped => None)
    case GiveKernel(f) => Some(FreeKernel(b, f))
    case GiveUser(f, u) => match FreeUser(b, f, u) case Done(b') => Some(b') case Crashed => None
  }

  /** A frame is given back that is not in use. */
  predicate GivesTwice(b: Buffer, op: FrameOp) {
    op.GiveKernel? && InRange(b, op.f) && op.f !in b.own
  }

  /** A call keeps every frame in use or on the one stack of its zone if and only if it does not give back a frame not in use. */
  lemma FrameStepZoned(b: Buffer, op: FrameOp)
    requires Zoned(b) && FrameStep(b, op).Some?
    ensures var b' := FrameStep(b, op).value;
            (Zoned(b') <==> !GivesTwice(b, op)) && b'.start == b.start && b'.size == b.size
  {
    match op {
      case TakeKernel => if AllocKernel(b).Some? { AllocKernelZoned(b); }
      case TakeUser(u) => if AllocUser(b, u).Some? { AllocUserZoned(b, u); }
      case Share(f, u) => if AddOwner(b, f, u).Added? { AddOwnerZoned(b, f, u); }
      case GiveKernel(f) => if f in b.own { FreeKernelZoned(b, f); } else if InRange(b, f) { GivenTwice(b, f); }
      case GiveUser(f, u) => FreeUserZoned(b, f, u);
    }
  }

  lemma GivenTwice(b: Buffer, f: nat)
    requires Zoned(b) && InRange(b, f) && f !in b.own
    ensures !Zoned(FreeKernel(b, f))
  {
    var s := if f >= NORMAL_END then b.high else b.normal;
    if IsFrame(b, f) {
      var i :| 0 <= i < |s| && s[i] == f;
      assert ([f] + s)[0] == ([f] + s)[i + 1];
    } else {
      assert f in [f] + s;
    }
  }

  function FrameRun(b: Buffer, ops: seq<FrameOp>): Option<Buffer>
    decreases |ops|
  {
    if ops == [] then Some(b)
    else match FrameStep(b, ops[0]) case None => None case Some(b1) => FrameRun(b1, ops[1..])
  }

  /** No call of the run gives back a frame that is not in use. */
  predicate GivesOnce(b: Buffer, ops: seq<FrameOp>)
    decreases |ops|
  {
    ops == [] ||
    (!GivesTwice(b, ops[0]) && (FrameStep(b, ops[0]).Some? ==> GivesOnce(FrameStep(b, ops[0]).value, ops[1..])))
  }

  /**
   Over every run that frees only frames in use each frame is in use or on exactly one stack, the
   one of its zone, and the number of free and used frames together does not change.
   */
  lemma {:induction false} FrameRunTheorem(b: Buffer, ops: seq<FrameOp>, all: set<nat>)
    requires Zoned(b) && Covers(b, all) && GivesOnce(b, ops)
    ensures FrameRun(b, ops).Some? ==>
              var b' := FrameRun(b, ops).value;
              Zoned(b') && |b'.normal| + |b'.high| + |b'.own.Keys| == |b.normal| + |b.high| + |b.own.Keys| == |all|
    decreases |ops|
  {
    FrameConservation(b, all);
    if ops != [] && FrameStep(b, ops[0]).Some? {
      FrameStepZoned(b, ops[0]);
      FrameRunTheorem(FrameStep(b, ops[0]).value, ops[1..], all);
    }
  }

  // ---------------------------------------------------------------- what one call undoes

  /** Removing an owner that has just been added restores the buffer. */
  lemma FreeUndoesAdd(b: Buffer, f: nat, u: User)
    requires Zoned(b) && f in b.own && AddOwner(b, f, u).Added?
    ensures var b1 := AddOwner(b, f, u).b;
            if b1.entries == 0 then FreeUser(b1, f, u).Crashed? else FreeUser(b1, f, u) == Done(b)
  {
    var b1 := AddOwner(b, f, u).b;
    assert Drop(b1.own[f], u) == b.own[f];
    assert b1.own[f := b.own[f]] == b.own;
  }

  /** A frame allocated and freed by its user is the next one to be allocated again. */
  lemma FreeUndoesAllocUser(b: Buffer, u: User)
    requires Zoned(b) && AllocUser(b, u).Some?
    ensures var (b', f) := AllocUser(b, u).value; FreeUser(b', f, u) == Done(b)
  {
    AllocUserZoned(b, u);
    var (b', f) := AllocUser(b, u).value;
    assert b'.own - {f} == b.own;
    if b.high != [] {
      assert b.high[0] in b.high && [f] + b.high[1..] == b.high;
    } else {
      assert b.normal[0] in b.normal && [f] + b.normal[1..] == b.normal;
    }
  }
}
