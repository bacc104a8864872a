/**
 The theorems about whole calls of mem_realloc and about whole runs of the allocator.
 */
module HeapRuns {
  import opened BlockLists
  import opened BlockTables
  import opened BlockSteps
  import opened BestFit
  import opened HeapSpec
  import opened HeapInv
  import opened HeapOps
  import opened HeapKeep
  import opened HeapRealloc

  // ---------------------------------------------------------------- mem_realloc as a whole

  /** The free successor fits exactly. */
  ghost predicate FitsExactly(bs: seq<Blk>, i: nat, nsz: nat)
    requires i < |bs|
  {
    bs[i].size < nsz && IsFreeAt(bs, i + 1) && bs[i + 1].size + HDR == nsz - bs[i].size
  }

  /** The free successor is split. */
  ghost predicate GrowsBySplit(bs: seq<Blk>, i: nat, nsz: nat)
    requires i < |bs|
  {
    bs[i].size < nsz && IsFreeAt(bs, i + 1) && bs[i + 1].size > nsz - bs[i].size
  }

  ghost predicate MustMove(bs: seq<Blk>, i: nat, nsz: nat)
    requires i < |bs|
  {
    bs[i].size < nsz && !FitsExactly(bs, i, nsz) && !GrowsBySplit(bs, i, nsz)
  }

  /** No page frames for the successor that would have to be split. */
  ghost predicate SplitFails(bs: seq<Blk>, i: nat, nsz: nat, ok: bool)
    requires i < |bs|
  {
    GrowsBySplit(bs, i, nsz) && bs[i + 1].status.FreeEmpty? && !ok
  }

  /** What every outcome of mem_realloc on the used block i guarantees. */
  ghost predicate ReallocGood(h: Heap, i: nat, nsz: nat, exact: bool, r: ReallocResult)
    requires i < |h.t.blocks|
  {
    var b := h.t.blocks[i];
    match r
    case Moved(h', a) =>
      && Inv(h', false) && (!GrowsBySplit(h.t.blocks, i, nsz) ==> Inv(h', exact))
      && (!MustMove(h.t.blocks, i, nsz) ==> a == DataOf(b))
      && Resized(h, h', DataOf(b), b.size, a, nsz)
    case Lost(h') => Inv(h', exact) && Inv(h', false) && Preserves(h, h', b.start)
    case StaleHeader(_) => true
    case Broken(_) => true
    case Rejected(_) => false
  }

  lemma ReallocAbsorbs(h: Heap, i: nat, nsz: nat, ok: bool, exact: bool)
    requires Inv(h, exact) && i < |h.t.blocks| && h.t.blocks[i].status.Used? && FitsExactly(h.t.blocks, i, nsz)
    ensures Expand(h, i, nsz, ok).Moved? && ReallocGood(h, i, nsz, exact, Expand(h, i, nsz, ok))
  {
    AbsorbNextResizes(h, i, nsz, exact);
    LaidLoose(Absorb(h, i, nsz).t.blocks, h.base, HeapEnd(h), exact);
  }

  lemma ExpandSplits(h: Heap, i: nat, nsz: nat, ok: bool) returns (h1: Heap)
    requires |h.t.fbl| == CLASSES && i < |h.t.blocks|
    requires GrowsBySplit(h.t.blocks, i, nsz) && !SplitFails(h.t.blocks, i, nsz, ok)
    ensures Split(h, i + 1, nsz - h.t.blocks[i].size, ok) == Some(h1)
    ensures i + 1 < |h1.t.blocks| ==> Expand(h, i, nsz, ok) == Moved(Absorb(h1, i, nsz), DataOf(h.t.blocks[i]))
  {
    h1 := Split(h, i + 1, nsz - h.t.blocks[i].size, ok).value;
  }

  lemma ReallocSplits(h: Heap, i: nat, nsz: nat, ok: bool, exact: bool)
    requires Inv(h, exact) && i < |h.t.blocks| && h.t.blocks[i].status.Used?
    requires GrowsBySplit(h.t.blocks, i, nsz) && !SplitFails(h.t.blocks, i, nsz, ok)
    ensures Expand(h, i, nsz, ok).Moved? && ReallocGood(h, i, nsz, exact, Expand(h, i, nsz, ok))
  {
    var h1 := ExpandSplits(h, i, nsz, ok);
    SplitTakesFront(h, h1, i, nsz - h.t.blocks[i].size, ok, exact);
    AbsorbSplitResizes(h, h1, i, nsz, exact);
  }

  lemma ReallocFails(h: Heap, i: nat, nsz: nat, exact: bool)
    requires Inv(h, exact) && i < |h.t.blocks| && h.t.blocks[i].status.Used?
    ensures ReallocGood(h, i, nsz, exact, MoveAfterError(h, DataOf(h.t.blocks[i]), nsz))
    ensures MoveAfterError(h, DataOf(h.t.blocks[i]), nsz).Lost?
  {
    var b := h.t.blocks[i];
    FindInv(h, nsz, false, exact);
    InvClassed(h, exact);
    match FindFreeWithin(h, nsz, false) {
      case Taken(h1, _) =>
        FindPreserves(h, nsz, false, exact);
        assert KeptIn(b, h1.t.blocks);
        var c :| c in h1.t.blocks && c.status.Used? && c.start == b.start;
        FreeAway(h1, DataOf(b), c, exact);
        PreservesWeaken(h, h1, b.start);
        PreservesTrans(h, h1, MemFree(h1, DataOf(b)), b.start);
      case _ =>
        FreeAway(h, DataOf(b), b, exact);
    }
    var h' := MoveAfterError(h, DataOf(b), nsz).h;
    LaidLoose(h'.t.blocks, h'.base, HeapEnd(h'), exact);
  }

  lemma ReallocMoves(h: Heap, i: nat, nsz: nat, ok: bool, exact: bool)
    requires Inv(h, exact) && i < |h.t.blocks| && h.t.blocks[i].status.Used? && MustMove(h.t.blocks, i, nsz)
    ensures var (b, r) := (h.t.blocks[i], MoveBlk(h, DataOf(h.t.blocks[i]), h.t.blocks[i].size, nsz, ok));
            && ReallocGood(h, i, nsz, exact, r)
            && (r.Broken? <==> DoublySelects(h.t, nsz)) && (r.Lost? <==> MemAlloc(h, nsz, ok).Refused?)
  {
    var b := h.t.blocks[i];
    AllocInv(h, nsz, ok, exact);
    AllocCorruptsIff(h, nsz, ok, exact);
    match MemAlloc(h, nsz, ok) {
      case Got(_, _) =>
        MoveResizes(h, i, nsz, ok, exact);
        var r := MoveBlk(h, DataOf(b), b.size, nsz, ok);
        LaidLoose(r.h.t.blocks, r.h.base, HeapEnd(r.h), exact);
      case Refused(h1) =>
        FreeAway(h, DataOf(b), b, exact);
        var h' := MemFree(h, DataOf(b));
        LaidLoose(h'.t.blocks, h'.base, HeapEnd(h'), exact);
      case _ =>
    }
  }

  /**
   mem_realloc of a live payload: the payload comes back with at least nsz bytes and the old
   bytes, or an allocation failed and it is freed.  The two remaining outcomes are faults of
   the code; each occurs exactly under a condition on the blocks before the call.
   */
  lemma ReallocTheorem(h: Heap, adr: nat, nsz: nat, ok: bool, exact: bool)
    requires Inv(h, exact) && 0 < nsz && FindUsed(h.t.blocks, adr) < |h.t.blocks|
    ensures var (r, i) := (MemRealloc(h, adr, nsz, ok), FindUsed(h.t.blocks, adr));
            && ReallocGood(h, i, nsz, exact, r)
            && (r.StaleHeader? <==> LosesHeader(h.t.blocks, i, nsz))
            && (r.Broken? <==> MustMove(h.t.blocks, i, nsz) && DoublySelects(h.t, nsz))
            && (r.Lost? <==> SplitFails(h.t.blocks, i, nsz, ok)
                             || (MustMove(h.t.blocks, i, nsz) && MemAlloc(h, nsz, ok).Refused?))
  {
    var i := FindUsed(h.t.blocks, adr);
    var b := h.t.blocks[i];
    assert b in h.t.blocks;
    InvClassed(h, exact);
    LaidLoose(h.t.blocks, h.base, HeapEnd(h), exact);
    if b.size == nsz {
      SameResized(h, b, exact);
    } else if b.size > nsz {
      ShrinkBlkResizes(h, i, nsz, exact);
      var r := ShrinkBlk(h, i, nsz);
      if r.Moved? { LaidLoose(r.h.t.blocks, r.h.base, HeapEnd(r.h), exact); }
    } else if MustMove(h.t.blocks, i, nsz) {
      ReallocMoves(h, i, nsz, ok, exact);
    } else if SplitFails(h.t.blocks, i, nsz, ok) {
      ReallocFails(h, i, nsz, exact);
    } else if FitsExactly(h.t.blocks, i, nsz) {
      ReallocAbsorbs(h, i, nsz, ok, exact);
    } else {
      ReallocSplits(h, i, nsz, ok, exact);
    }
  }

  lemma SameResized(h: Heap, b: Blk, exact: bool)
    requires Inv(h, exact) && b in h.t.blocks && b.status.Used?
    ensures Resized(h, h, DataOf(b), b.size, DataOf(b), b.size)
  {
    SamePreserves(h);
    GrownResized(h, h, b, b.size, exact);
  }

  // ---------------------------------------------------------------- where the tiling is lost

  /**
   Growing a block by splitting its successor forgets the header that it swallows: the blocks
   of an exact heap no longer fill it.  In every other branch that does not fail they do.
   */
  lemma SplitLosesHeader(h: Heap, i: nat, nsz: nat, ok: bool)
    requires Inv(h, true) && i < |h.t.blocks| && h.t.blocks[i].status.Used?
    requires GrowsBySplit(h.t.blocks, i, nsz) && !SplitFails(h.t.blocks, i, nsz, ok)
    ensures Expand(h, i, nsz, ok).Moved? && !Inv(Expand(h, i, nsz, ok).h, true)
  {
    var h1 := ExpandSplits(h, i, nsz, ok);
    SplitExact(h, h1, i, nsz - h.t.blocks[i].size, ok);
    AbsorbLeavesGap(h1, i, nsz);
  }

  lemma SplitExact(h: Heap, h1: Heap, i: nat, more: nat, ok: bool)
    requires Inv(h, true) && i + 1 < |h.t.blocks| && h.t.blocks[i].status.Used? && !h.t.blocks[i + 1].status.Used?
    requires 0 < more < h.t.blocks[i + 1].size && Split(h, i + 1, more, ok) == Some(h1)
    ensures Inv(h1, true) && i + 1 < |h1.t.blocks| && h1.t.blocks[i] == h.t.blocks[i]
    ensures h1.t.blocks[i + 1].status.Used? && h1.t.blocks[i + 1].size >= more
  {
    SplitTakesFront(h, h1, i, more, ok, true);
    SplitInv(h, i + 1, more, ok, true);
  }

  lemma AbsorbLeavesGap(h1: Heap, i: nat, nsz: nat)
    requires Inv(h1, true) && i + 1 < |h1.t.blocks| && h1.t.blocks[i].status.Used? && h1.t.blocks[i + 1].status.Used?
    requires 0 < nsz <= h1.t.blocks[i].size + h1.t.blocks[i + 1].size
    ensures !Inv(Absorb(h1, i, nsz), true)
  {
    LaidLoose(h1.t.blocks, h1.base, HeapEnd(h1), true);
    AbsorbSplitInv(h1, i, nsz);
    ExactNext(h1, i);
    GapBehind(h1, Absorb(h1, i, nsz), i, nsz);
  }

  lemma GapBehind(h1: Heap, h': Heap, i: nat, nsz: nat)
    requires Inv(h1, true) && i + 1 < |h1.t.blocks| && h'.t.blocks == AbsorbedBlocks(h1.t.blocks, i, nsz)
    requires HeapEnd(h') == HeapEnd(h1) && h'.base == h1.base
    requires DataOf(h1.t.blocks[i]) + nsz < EndOf(h1.t.blocks[i + 1])
    ensures !Inv(h', true)
  {
    if Inv(h', true) {
      InvAt(h', true, i);
      InvAt(h1, true, i + 1);
      if i + 2 < |h1.t.blocks| {
        ExactNext(h1, i + 1);
        assert h'.t.blocks[i + 1] == h1.t.blocks[i + 2];
        ExactNext(h', i);
      } else {
        LastAt(h'.t.blocks, h'.base, HeapEnd(h'), true);
        LastAt(h1.t.blocks, h1.base, HeapEnd(h1), true);
      }
    }
  }

  // ---------------------------------------------------------------- runs

  datatype Op = AllocOp(size: nat, ok: bool) | FreeOp(adr: nat) | ReallocOp(mem: nat, nsz: nat, ok: bool)

  /** The heap of a fresh process. */
  function Fresh(base: nat): Heap {
    Heap(Table([], [], seq(CLASSES, _ => [])), base, REGION, 0, {}, map[])
  }

  /** One call; None when it corrupts the table or touches a vanished descriptor. */
  ghost function Step(h: Heap, op: Op): Option<Heap>
    requires |h.t.fbl| == CLASSES
  {
    match op
    case AllocOp(sz, ok) =>
      var r := MemAlloc(h, sz, ok);
      if r.Corrupted? then None else Some(r.h)
    case FreeOp(adr) => Some(MemFree(h, adr))
    case ReallocOp(adr, nsz, ok) => Outcome(MemRealloc(h, adr, nsz, ok))
  }

  function Outcome(r: ReallocResult): Option<Heap> {
    if r.StaleHeader? || r.Broken? then None else Some(r.h)
  }

  /** The calls on which the code goes wrong, told from the state before the call. */
  ghost predicate Faulty(h: Heap, op: Op)
    requires |h.t.fbl| == CLASSES
  {
    match op
    case AllocOp(sz, _) => DoublySelects(h.t, sz)
    case FreeOp(_) => false
    case ReallocOp(adr, nsz, _) =>
      var i := FindUsed(h.t.blocks, adr);
      if adr == 0 then nsz > 0 && DoublySelects(h.t, nsz)
      else if nsz == 0 || i == |h.t.blocks| then false
      else LosesHeader(h.t.blocks, i, nsz) || (MustMove(h.t.blocks, i, nsz) && DoublySelects(h.t, nsz))
  }

  /** The calls that give up the exact tiling: growing in place by splitting the successor. */
  ghost predicate LeavesGap(h: Heap, op: Op)
    requires |h.t.fbl| == CLASSES
  {
    match op
    case ReallocOp(adr, nsz, _) =>
      var i := FindUsed(h.t.blocks, adr);
      adr != 0 && nsz > 0 && i < |h.t.blocks| && GrowsBySplit(h.t.blocks, i, nsz)
    case _ => false
  }

  ghost predicate StepGood(h: Heap, op: Op, exact: bool)
    requires |h.t.fbl| == CLASSES
  {
    && (Step(h, op).None? <==> Faulty(h, op))
    && (Step(h, op).Some? ==> Inv(Step(h, op).value, exact && !LeavesGap(h, op)))
  }

  lemma StepAlloc(h: Heap, sz: nat, ok: bool, exact: bool)
    requires Inv(h, exact)
    ensures StepGood(h, AllocOp(sz, ok), exact)
  {
    AllocInv(h, sz, ok, exact);
    AllocCorruptsIff(h, sz, ok, exact);
  }

  lemma StepFree(h: Heap, adr: nat, exact: bool)
    requires Inv(h, exact)
    ensures StepGood(h, FreeOp(adr), exact)
  {
    FreeInv(h, adr, exact);
  }

  lemma StepResize(h: Heap, adr: nat, nsz: nat, ok: bool, exact: bool)
    requires Inv(h, exact) && adr != 0 && nsz > 0 && FindUsed(h.t.blocks, adr) < |h.t.blocks|
    ensures StepGood(h, ReallocOp(adr, nsz, ok), exact)
  {
    ReallocTheorem(h, adr, nsz, ok, exact);
    OutcomeGood(h, FindUsed(h.t.blocks, adr), nsz, exact, MemRealloc(h, adr, nsz, ok));
  }

  lemma OutcomeGood(h: Heap, i: nat, nsz: nat, exact: bool, r: ReallocResult)
    requires |h.t.fbl| == CLASSES && i < |h.t.blocks| && ReallocGood(h, i, nsz, exact, r)
    requires r.StaleHeader? <==> LosesHeader(h.t.blocks, i, nsz)
    requires r.Broken? <==> MustMove(h.t.blocks, i, nsz) && DoublySelects(h.t, nsz)
    ensures Outcome(r).None? <==> LosesHeader(h.t.blocks, i, nsz) || (MustMove(h.t.blocks, i, nsz) && DoublySelects(h.t, nsz))
    ensures Outcome(r).Some? ==> Inv(Outcome(r).value, exact && !GrowsBySplit(h.t.blocks, i, nsz))
  {
  }

  lemma StepRealloc(h: Heap, adr: nat, nsz: nat, ok: bool, exact: bool)
    requires Inv(h, exact)
    ensures StepGood(h, ReallocOp(adr, nsz, ok), exact)
  {
    if adr == 0 && nsz > 0 {
      AllocInv(h, nsz, ok, exact);
      AllocCorruptsIff(h, nsz, ok, exact);
    } else if adr != 0 && nsz == 0 {
      FreeInv(h, adr, exact);
    } else if adr != 0 && FindUsed(h.t.blocks, adr) < |h.t.blocks| {
      StepResize(h, adr, nsz, ok, exact);
    }
  }

  /** A call goes wrong exactly when it is faulty; any other call keeps the invariant. */
  lemma StepInv(h: Heap, op: Op, exact: bool)
    requires Inv(h, exact)
    ensures Step(h, op).None? <==> Faulty(h, op)
    ensures Step(h, op).Some? ==> Inv(Step(h, op).value, exact && !LeavesGap(h, op))
  {
    match op {
      case AllocOp(sz, ok) => StepAlloc(h, sz, ok, exact);
      case FreeOp(adr) => StepFree(h, adr, exact);
      case ReallocOp(adr, nsz, ok) => StepRealloc(h, adr, nsz, ok, exact);
    }
    assert StepGood(h, op, exact);
  }

  ghost function Run(h: Heap, ops: seq<Op>): Option<Heap>
    requires |h.t.fbl| == CLASSES
    decreases |ops|
  {
    if ops == [] then Some(h)
    else
      var r := Step(h, ops[0]);
      if r.None? || |r.value.t.fbl| != CLASSES then None else Run(r.value, ops[1..])
  }

  /** No call of the run grows a block by splitting its successor. */
  ghost predicate GapFree(h: Heap, ops: seq<Op>)
    requires |h.t.fbl| == CLASSES
    decreases |ops|
  {
    ops == [] ||
    (!LeavesGap(h, ops[0])
     && var r := Step(h, ops[0]); r.Some? && |r.value.t.fbl| == CLASSES ==> GapFree(r.value, ops[1..]))
  }

  lemma FreshInv(base: nat)
    requires base > 0 && base % PAGE == 0
    ensures Inv(Fresh(base), true)
  {
  }

  lemma {:induction false} RunFrom(h: Heap, ops: seq<Op>, exact: bool)
    requires Inv(h, exact) && (exact ==> GapFree(h, ops))
    ensures Run(h, ops).Some? ==> Inv(Run(h, ops).value, exact)
    decreases |ops|
  {
    if ops != [] {
      StepInv(h, ops[0], exact);
      var r := Step(h, ops[0]);
      if r.Some? { RunFrom(r.value, ops[1..], exact); }
    }
  }

  /**
   Every run from a fresh heap that meets no faulty call ends in a state of the invariant,
   and in an exactly tiled one if no call grew a block by splitting.
   */
  lemma RunTheorem(base: nat, ops: seq<Op>)
    requires base > 0 && base % PAGE == 0
    ensures var r := Run(Fresh(base), ops);
            r.Some? ==> Inv(r.value, false) && (GapFree(Fresh(base), ops) ==> Inv(r.value, true))
  {
    FreshInv(base);
    RunFrom(Fresh(base), ops, false);
    if GapFree(Fresh(base), ops) { RunFrom(Fresh(base), ops, true); }
  }

  // ---------------------------------------------------------------- conservation

  function Occupied(bs: seq<Blk>): nat {
    if bs == [] then 0 else bs[0].size + HDR + Occupied(bs[1..])
  }

  lemma {:induction false} OccupiedLaid(bs: seq<Blk>, at: nat, end: nat)
    requires InRow(bs, at, end, true)
    ensures Occupied(bs) == end - at
  {
    if bs != [] { OccupiedLaid(bs[1..], EndOf(bs[0]), end); }
  }

  /** In an exact heap headers and payloads account for every usable page, and the last block ends the heap. */
  lemma Conservation(h: Heap)
    requires Inv(h, true)
    ensures Occupied(h.t.blocks) == h.usable * PAGE
    ensures h.t.blocks != [] ==> EndOf(h.t.blocks[|h.t.blocks| - 1]) == h.base + h.usable * PAGE
    ensures h.t.blocks == [] <==> h.usable == 0
  {
    LaidIff(h.t.blocks, h.base, HeapEnd(h), true);
    OccupiedLaid(h.t.blocks, h.base, HeapEnd(h));
    if h.t.blocks != [] { LastAt(h.t.blocks, h.base, HeapEnd(h), true); }
  }

  /** Live payloads are inside the heap and pairwise disjoint. */
  lemma LivePayloads(h: Heap, i: nat, j: nat)
    requires Inv(h, false) && i < j < |h.t.blocks|
    ensures h.base <= DataOf(h.t.blocks[i]) && EndOf(h.t.blocks[i]) < DataOf(h.t.blocks[j]) && EndOf(h.t.blocks[j]) <= HeapEnd(h)
  {
    LaidOrdered(h.t.blocks, h.base, HeapEnd(h), false, i, j);
    InvAt(h, false, i);
    InvAt(h, false, j);
  }

  /** Live payloads stay: every used block that a call does not name is in place, not smaller, with its bytes. */
  lemma StepPreserves(h: Heap, op: Op, exact: bool)
    requires Inv(h, exact) && Step(h, op).Some?
    ensures var x := match op case AllocOp(_, _) => 0 case FreeOp(adr) => adr case ReallocOp(adr, _, _) => adr;
            Preserves(h, Step(h, op).value, if x >= HDR then x - HDR else 0)
  {
    match op {
      case AllocOp(sz, ok) => AllocCallPreserves(h, sz, ok, exact);
      case FreeOp(adr) => FreeCallPreserves(h, adr, exact);
      case ReallocOp(adr, nsz, ok) => ReallocCallPreserves(h, adr, nsz, ok, exact);
    }
  }

  lemma AllocCallPreserves(h: Heap, sz: nat, ok: bool, exact: bool)
    requires Inv(h, exact)
    ensures !MemAlloc(h, sz, ok).Corrupted? ==> Preserves(h, MemAlloc(h, sz, ok).h, 0)
  {
    SamePreserves(h);
    AllocInv(h, sz, ok, exact);
    if MemAlloc(h, sz, ok).Got? { AllocPreserves(h, sz, ok, exact); }
  }

  lemma FreeCallPreserves(h: Heap, adr: nat, exact: bool)
    requires Inv(h, exact)
    ensures Preserves(h, MemFree(h, adr), if adr >= HDR then adr - HDR else 0)
  {
    SamePreserves(h);
    InvClassed(h, exact);
    PreservesWeaken(h, h, if adr >= HDR then adr - HDR else 0);
    FreePreserves(h, adr, exact);
  }

  lemma ReallocCallPreserves(h: Heap, adr: nat, nsz: nat, ok: bool, exact: bool)
    requires Inv(h, exact)
    ensures var r := MemRealloc(h, adr, nsz, ok);
            !r.StaleHeader? && !r.Broken? ==> Preserves(h, r.h, if adr >= HDR then adr - HDR else 0)
  {
    if adr == 0 && nsz > 0 {
      AllocCallPreserves(h, nsz, ok, exact);
    } else if nsz == 0 {
      SamePreserves(h);
      FreeCallPreserves(h, adr, exact);
    } else if FindUsed(h.t.blocks, adr) < |h.t.blocks| {
      ReallocTheorem(h, adr, nsz, ok, exact);
    } else {
      SamePreserves(h);
      InvClassed(h, exact);
      PreservesWeaken(h, h, if adr >= HDR then adr - HDR else 0);
    }
  }
}
