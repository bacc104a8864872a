/**
 The scheduler on thread descriptors: the run queue is a linked list that begins with the idle
 thread, and every method is proved to compute the function of Scheduler of the same name.
 */
module SchedulerClass {
  import opened BlockLists
  import opened Scheduler

  datatype Thread = Thread(prev: Ptr, next: Ptr, eff: nat, stat: nat)

  ghost function Effs(thr: map<Ptr, Thread>): map<nat, nat> {
    map t | t in thr :: thr[t].eff
  }

  ghost function Stats(thr: map<Ptr, Thread>): map<nat, nat> {
    map t | t in thr :: thr[t].stat
  }

  /** The links of t: its neighbours in the run queue, or none. */
  ghost predicate LinksOf(thr: map<Ptr, Thread>, idle: Ptr, q: seq<Ptr>, t: Ptr) {
    t in thr ==>
      var i := if t == idle then -1 else PosOf(q, t);
      if i < |q| then thr[t].next == At(q, i + 1) && thr[t].prev == (if i == 0 then idle else At(q, i - 1))
      else thr[t].next == thr[t].prev == NULL
  }

  ghost predicate Links(thr: map<Ptr, Thread>, idle: Ptr, q: seq<Ptr>) {
    forall t {:trigger LinksOf(thr, idle, q, t)} :: LinksOf(thr, idle, q, t)
  }

  class RunQueue {
    const idle: Ptr
    var thr: map<Ptr, Thread>
    var cur: Ptr
    var active: int
    var change: bool

    ghost var queue: seq<Ptr>

    ghost function Value(): Sched
      reads this
    {
      Sched(queue, Effs(thr), Stats(thr), idle, cur)
    }

    ghost predicate Valid()
      reads this
    {
      && Proper(Value()) && active == Active(Value())
      && Queue(thr, idle, queue)
    }

    /**
     ksysc_create_idle: the idle thread, which is the running one, is started like any other.
     That counts it and links it behind itself; then its links are cleared.
     */
    constructor (threads: map<Ptr, Thread>, idleThread: Ptr)
      requires NULL !in threads && idleThread in threads
      requires forall t :: t in threads ==> threads[t].prev == threads[t].next == NULL
      ensures Valid() && queue == [] && cur == idle == idleThread
      ensures thr == threads[idleThread := threads[idleThread].(eff := (threads[idleThread].eff / 4 + threads[idleThread].stat) * 2)]
    {
      thr, idle, cur, active, change, queue := threads, idleThread, idleThread, 0, false, [];
      new;
      thr := thr[idle := Thread(idle, idle, (thr[idle].eff / 4 + thr[idle].stat) * 2, thr[idle].stat)];
      active := active + 1;
      thr := thr[idle := thr[idle].(prev := NULL, next := NULL)];
    }

    /** ksched_next_thread; no link that it follows is NULL. */
    method NextThread()
      requires Valid()
      modifies this
      ensures Valid() && !change
      ensures Some(Value()) == if old(change) then Dispatch(old(Value())) else Some(old(Value()))
    {
      if !change { return; }
      assert LinksOf(thr, idle, queue, cur) && LinksOf(thr, idle, queue, idle);
      var next := NULL;
      if thr[cur].next == NULL {
        if active == 1 { next := idle; } else { next := thr[idle].next; }
      } else {
        next := thr[cur].next;
      }
      Selected(next);
      cur := next;
      if thr[cur].eff == 0 { SetTicks(cur, thr[cur].stat * 2); }
      change := false;
    }

    lemma Selected(next: Ptr)
      requires Valid()
      requires next == if thr[cur].next != NULL then thr[cur].next else if active == 1 then idle else thr[idle].next
      ensures Successor(Value()) == Some(next) && next in thr
    {
      NeverNull(Value());
      assert LinksOf(thr, idle, queue, cur) && LinksOf(thr, idle, queue, idle);
      assert forall i :: 0 <= i < |queue| ==> queue[i] in queue;
    }

    /** The timer branch of ksched_handle_irq and the attempt to reschedule. */
    method HandleTimer()
      requires Valid() && !change
      modifies this
      ensures Valid() && !change && Tick(old(Value())) == Some(Value())
    {
      if thr[cur].eff == 0 {
        change := true;
      } else {
        SetTicks(cur, thr[cur].eff - 1);
      }
      if change { NextThread(); }
    }

    /** ksched_start_thread; mayRun: the thread is neither defunct nor frozen. */
    method StartThread(t: Ptr, mayRun: bool)
      requires Valid() && t in thr && t != idle && (cur == idle || cur in queue)
      modifies this
      ensures Valid() && Value() == if mayRun then Start(old(Value()), t) else old(Value())
      ensures change <==> old(change) || (mayRun && t !in old(queue) && old(cur) != idle
                                          && StartTicks(old(Value()), t) >= Eff(old(Value()), old(cur)))
    {
      Unqueued(t);
      if thr[t].prev != NULL || thr[t].next != NULL { return; }
      if !mayRun { return; }
      StartProper(Value(), t);
      SetTicks(t, (thr[t].eff / 4 + thr[t].stat) * 2);
      if thr[t].eff >= thr[cur].eff && cur != idle {
        InsertBehind(t, cur, PosOf(queue, cur) + 1);
        change := true;
      } else {
        InsertBehind(t, idle, 0);
      }
      active := active + 1;
    }

    method SetTicks(t: Ptr, e: nat)
      requires Queue(thr, idle, queue) && t in thr
      modifies this`thr
      ensures Queue(thr, idle, queue) && thr.Keys == old(thr).Keys && thr[t] == old(thr)[t].(eff := e)
      ensures forall x :: x in thr && x != t ==> thr[x] == old(thr)[x]
      ensures Effs(thr) == Effs(old(thr))[t := e] && Stats(thr) == Stats(old(thr))
    {
      thr := thr[t := thr[t].(eff := e)];
      SameLinks(old(thr), thr, idle, queue);
    }

    lemma Unqueued(t: Ptr)
      requires Valid() && t in thr && t != idle
      ensures thr[t].prev == NULL && thr[t].next == NULL <==> t !in queue
    {
      assert LinksOf(thr, idle, queue, t);
      assert forall i :: 0 <= i < |queue| ==> queue[i] in queue;
    }

    /** t linked behind q, which is the idle thread or entry k - 1 of the queue. */
    method InsertBehind(t: Ptr, q: Ptr, ghost k: nat)
      requires Queue(thr, idle, queue) && t in thr && t !in queue && t != idle && k <= |queue|
      requires q == if k == 0 then idle else queue[k - 1]
      modifies this`thr, this`queue
      ensures queue == old(queue)[..k] + [t] + old(queue)[k..]
      ensures thr.Keys == old(thr).Keys && Effs(thr) == Effs(old(thr)) && Stats(thr) == Stats(old(thr))
      ensures Queue(thr, idle, queue)
    {
      assert LinksOf(thr, idle, queue, q) && LinksOf(thr, idle, queue, t);
      if k > 0 { PosOfAt(queue, k - 1); }
      var next := thr[q].next;
      thr := thr[t := thr[t].(prev := q, next := next)];
      thr := thr[q := thr[q].(next := t)];
      if next != NULL { thr := thr[next := thr[next].(prev := t)]; }
      SameTicks(old(thr), thr);
      InsertLinks(old(thr), thr, idle, queue, k, t);
      queue := queue[..k] + [t] + queue[k..];
    }

    /** ksched_stop_thread. */
    method StopThread(t: Ptr)
      requires Valid() && t in thr && t != idle
      modifies this
      ensures Valid() && Value() == Stop(old(Value()), t) && change == old(change)
    {
      StopProper(Value(), t);
      Unqueued(t);
      var queued := thr[t].prev != NULL || thr[t].next != NULL;
      Unlink(t, PosOf(queue, t));
      if queued { active := active - 1; }
    }

    method Unlink(t: Ptr, ghost k: nat)
      requires Queue(thr, idle, queue) && t in thr && t != idle && k == PosOf(queue, t)
      modifies this`thr, this`queue
      ensures queue == if k < |old(queue)| then old(queue)[..k] + old(queue)[k + 1..] else old(queue)
      ensures thr.Keys == old(thr).Keys && Effs(thr) == Effs(old(thr)) && Stats(thr) == Stats(old(thr))
      ensures Queue(thr, idle, queue)
    {
      assert LinksOf(thr, idle, queue, t);
      var prev, next := thr[t].prev, thr[t].next;
      if prev != NULL { thr := thr[prev := thr[prev].(next := next)]; }
      if next != NULL { thr := thr[next := thr[next].(prev := prev)]; }
      thr := thr[t := thr[t].(prev := NULL, next := NULL)];
      SameTicks(old(thr), thr);
      if k < |queue| {
        RemoveLinks(old(thr), thr, idle, queue, k);
        queue := queue[..k] + queue[k + 1..];
      } else {
        SameLinks(old(thr), thr, idle, queue);
      }
    }
  }

  lemma SameTicks(thr: map<Ptr, Thread>, thr': map<Ptr, Thread>)
    requires thr'.Keys == thr.Keys && forall x :: x in thr ==> thr'[x].eff == thr[x].eff && thr'[x].stat == thr[x].stat
    ensures Effs(thr') == Effs(thr) && Stats(thr') == Stats(thr)
  {
  }

  /** Only priorities change. */
  lemma SameLinks(thr: map<Ptr, Thread>, thr': map<Ptr, Thread>, idle: Ptr, q: seq<Ptr>)
    requires Links(thr, idle, q) && thr'.Keys == thr.Keys
    requires forall x :: x in thr ==> thr'[x].prev == thr[x].prev && thr'[x].next == thr[x].next
    ensures Links(thr', idle, q)
  {
    forall t ensures LinksOf(thr', idle, q, t) { assert LinksOf(thr, idle, q, t); }
  }

  ghost predicate Queue(thr: map<Ptr, Thread>, idle: Ptr, q: seq<Ptr>) {
    && NULL !in thr && idle in thr && Links(thr, idle, q)
    && (forall i :: 0 <= i < |q| ==> q[i] in thr && q[i] != idle)
    && forall i, j :: 0 <= i < j < |q| ==> q[i] != q[j]
  }

  lemma InsertLinks(thr: map<Ptr, Thread>, thr': map<Ptr, Thread>, idle: Ptr, q: seq<Ptr>, k: nat, t: Ptr)
    requires Queue(thr, idle, q) && t in thr && t !in q && t != idle && k <= |q| && thr'.Keys == thr.Keys
    requires var (prev, next) := (if k == 0 then idle else q[k - 1], At(q, k));
             forall x :: x in thr ==>
               && thr'[x].next == (if x == t then next else if x == prev then t else thr[x].next)
               && thr'[x].prev == (if x == t then prev else if x == next then t else thr[x].prev)
    ensures Queue(thr', idle, q[..k] + [t] + q[k..])
  {
    var r := q[..k] + [t] + q[k..];
    InsertedPos(q, k, t);
    forall x ensures LinksOf(thr', idle, r, x) {
      assert LinksOf(thr, idle, q, x);
      if x in thr && x != t && x != idle && PosOf(q, x) < |q| { InsertedAround(q, k, t, PosOf(q, x)); }
    }
  }

  lemma InsertedAround(q: seq<Ptr>, k: nat, t: Ptr, i: nat)
    requires k <= |q| && i < |q| && (forall a, b :: 0 <= a < b < |q| ==> q[a] != q[b]) && NULL !in q
    ensures var (r, i') := (q[..k] + [t] + q[k..], if i < k then i else i + 1);
            && At(r, i' + 1) == (if i == k - 1 then t else At(q, i + 1))
            && At(r, i' - 1) == (if i == k then t else At(q, i - 1))
            && (q[i] == At(q, k) <==> i == k) && (k > 0 ==> (q[i] == q[k - 1] <==> i == k - 1))
  {
    assert q[i] in q;
  }

  lemma RemoveLinks(thr: map<Ptr, Thread>, thr': map<Ptr, Thread>, idle: Ptr, q: seq<Ptr>, k: nat)
    requires Queue(thr, idle, q) && k < |q| && thr'.Keys == thr.Keys
    requires var (prev, next) := (if k == 0 then idle else q[k - 1], At(q, k + 1));
             forall x :: x in thr ==>
               && thr'[x].next == (if x == q[k] then NULL else if x == prev then next else thr[x].next)
               && thr'[x].prev == (if x == q[k] then NULL else if x == next then prev else thr[x].prev)
    ensures Queue(thr', idle, q[..k] + q[k + 1..])
  {
    var r := q[..k] + q[k + 1..];
    RemovedPos(q, k);
    forall x ensures LinksOf(thr', idle, r, x) {
      assert LinksOf(thr, idle, q, x);
      if x in thr && x != q[k] && x != idle && PosOf(q, x) < |q| { RemovedAround(q, k, PosOf(q, x)); }
    }
  }

  lemma RemovedAround(q: seq<Ptr>, k: nat, i: nat)
    requires k < |q| && i < |q| && i != k && (forall a, b :: 0 <= a < b < |q| ==> q[a] != q[b]) && NULL !in q
    ensures var (r, i') := (q[..k] + q[k + 1..], if i < k then i else i - 1);
            && At(r, i' + 1) == (if i == k - 1 then At(q, k + 1) else At(q, i + 1))
            && At(r, i' - 1) == (if i == k + 1 then At(q, k - 1) else At(q, i - 1))
            && (q[i] == At(q, k + 1) <==> i == k + 1) && (k > 0 ==> (q[i] == q[k - 1] <==> i == k - 1))
  {
    assert q[i] in q;
  }

  lemma {:induction false} InsertedPos(q: seq<Ptr>, k: nat, t: Ptr)
    requires k <= |q| && t !in q && forall i, j :: 0 <= i < j < |q| ==> q[i] != q[j]
    ensures var r := q[..k] + [t] + q[k..];
            forall x :: PosOf(r, x) == if x == t then k else if PosOf(q, x) < k then PosOf(q, x) else PosOf(q, x) + 1
  {
    var r := q[..k] + [t] + q[k..];
    forall x ensures PosOf(r, x) == if x == t then k else if PosOf(q, x) < k then PosOf(q, x) else PosOf(q, x) + 1 {
      var i, j := PosOf(r, x), PosOf(q, x);
      assert r[k] == t && (i < |r| && i != k ==> r[i] == q[if i < k then i else i - 1]);
      assert j < |q| ==> r[if j < k then j else j + 1] == x;
    }
  }

  lemma {:induction false} RemovedPos(q: seq<Ptr>, k: nat)
    requires k < |q| && forall i, j :: 0 <= i < j < |q| ==> q[i] != q[j]
    ensures var r := q[..k] + q[k + 1..];
            forall x :: PosOf(r, x) == if x == q[k] then |r| else if PosOf(q, x) < k then PosOf(q, x) else PosOf(q, x) - 1
  {
    var r := q[..k] + q[k + 1..];
    forall x ensures PosOf(r, x) == if x == q[k] then |r| else if PosOf(q, x) < k then PosOf(q, x) else PosOf(q, x) - 1 {
      var i := PosOf(r, x);
      assert q == q[..k] + [q[k]] + q[k + 1..];
      assert i < |r| ==> r[i] == q[if i < k then i else i + 1];
      var j := PosOf(q, x);
      assert j < |q| && j != k ==> r[if j < k then j else j - 1] == x;
    }
  }
}
