/**
 Round-robin dispatch with decaying quantum: the walk over the run queue, the clock tick that
 asks for a switch, and the bound on how long a queued thread waits.
 */
module Scheduler {
  import opened BlockLists

  /**
   queue: the run queue behind the idle thread, in order; eff, stat: effective priority (the
   clock ticks left) and static priority of every thread; cur: the thread that runs, which
   need not be queued any more.
   */
  datatype Sched = Sched(queue: seq<nat>, eff: map<nat, nat>, stat: map<nat, nat>, idle: nat, cur: nat)

  predicate Proper(s: Sched) {
    && s.eff.Keys == s.stat.Keys && s.idle in s.eff && s.cur in s.eff && s.idle !in s.queue
    && (forall t :: t in s.queue ==> t in s.eff)
    && forall i, j :: 0 <= i < j < |s.queue| ==> s.queue[i] != s.queue[j]
  }

  /** The position of t, |q| when it is not queued. */
  function PosOf(q: seq<nat>, t: nat): (i: nat)
    ensures i <= |q| && (i < |q| ==> q[i] == t)
    ensures i == |q| ==> t !in q
  {
    if q == [] then 0 else if q[0] == t then 0 else 1 + PosOf(q[1..], t)
  }

  /** The thread behind t in the run queue, which begins with the idle thread. */
  function Behind(s: Sched, t: nat): Option<nat> {
    var i := if t == s.idle then 0 else PosOf(s.queue, t) + 1;
    if i < |s.queue| then Some(s.queue[i]) else None
  }

  /** ksched_active_threads: the idle thread has been started like any other, and counts. */
  function Active(s: Sched): nat {
    |s.queue| + 1
  }

  /** The thread that ksched_next_thread selects; None stands for a NULL that would be dereferenced. */
  function Successor(s: Sched): Option<nat> {
    if Behind(s, s.cur).Some? then Behind(s, s.cur)
    else if Active(s) == 1 then Some(s.idle)
    else Behind(s, s.idle)
  }

  /** A thread that has used up its time gets twice its static priority in ticks. */
  function Refreshed(s: Sched, t: nat): map<nat, nat> {
    if Eff(s, t) == 0 then s.eff[t := Stat(s, t) * 2] else s.eff
  }

  function Eff(s: Sched, t: nat): nat {
    if t in s.eff then s.eff[t] else 0
  }

  function Stat(s: Sched, t: nat): nat {
    if t in s.stat then s.stat[t] else 0
  }

  /** ksched_next_thread, when a switch is asked for. */
  function Dispatch(s: Sched): Option<Sched> {
    match Successor(s)
    case None => None
    case Some(t) => Some(s.(cur := t, eff := Refreshed(s, t)))
  }

  /** The timer interrupt: the running thread loses a tick, or is replaced when it has none left. */
  function Tick(s: Sched): Option<Sched> {
    if Eff(s, s.cur) == 0 then Dispatch(s) else Some(s.(eff := s.eff[s.cur := Eff(s, s.cur) - 1]))
  }

  lemma DispatchProper(s: Sched)
    requires Proper(s)
    ensures Dispatch(s).Some?
    ensures Proper(Dispatch(s).value) && Dispatch(s).value.queue == s.queue && Dispatch(s).value.stat == s.stat
  {
    NeverNull(s);
  }

  /** The idle thread is dispatched exactly when no other thread is queued. */
  lemma IdleIff(s: Sched)
    requires Proper(s)
    ensures Successor(s) == Some(s.idle) <==> s.queue == []
  {
    NeverNull(s);
  }

  /** A thread is always found: a queued one if there is any, whether or not the running thread is queued. */
  lemma NeverNull(s: Sched)
    requires Proper(s)
    ensures Successor(s).Some? && (s.queue != [] ==> Successor(s).value in s.queue)
  {
    var i := PosOf(s.queue, s.cur) + 1;
    if i < |s.queue| { assert s.queue[i] in s.queue; }
    if s.queue != [] { assert s.queue[0] in s.queue; }
  }

  // ---------------------------------------------------------------- quanta

  function Ticks(s: Sched, n: nat): Option<Sched>
    decreases n
  {
    if n == 0 then Some(s)
    else match Tick(s) case None => None case Some(s1) => Ticks(s1, n - 1)
  }

  lemma {:induction false} TicksAdd(s: Sched, m: nat, n: nat)
    requires Ticks(s, m).Some?
    ensures Ticks(s, m + n) == Ticks(Ticks(s, m).value, n)
    decreases m
  {
    if m > 0 { TicksAdd(Tick(s).value, m - 1, n); }
  }

  /** The state in which the running thread has no tick left. */
  function Spent(s: Sched): Sched {
    s.(eff := s.eff[s.cur := 0])
  }

  /** A thread with e ticks left is replaced at tick e + 1. */
  lemma {:induction false} Quantum(s: Sched)
    requires Proper(s)
    ensures Ticks(s, Eff(s, s.cur) + 1) == Dispatch(Spent(s)) && Dispatch(Spent(s)).Some?
    decreases Eff(s, s.cur)
  {
    NeverNull(Spent(s));
    if Eff(s, s.cur) == 0 {
      assert Spent(s) == s;
      assert Ticks(s, 1) == Ticks(Tick(s).value, 0);
    } else {
      var s1 := Tick(s).value;
      assert Spent(s1) == Spent(s);
      Quantum(s1);
    }
  }

  /**
   A thread that is dispatched runs for exactly the ticks it had left and one more, and for twice
   its static priority and one more if it had none left.
   */
  lemma TurnLength(s: Sched, s1: Sched, n: nat)
    requires Proper(s) && Dispatch(s) == Some(s1)
    ensures var (t, e) := (s1.cur, if Eff(s, s1.cur) == 0 then 2 * Stat(s, s1.cur) else Eff(s, s1.cur));
            && (n <= e ==> Ticks(s1, n).Some? && Ticks(s1, n).value.cur == t && Eff(Ticks(s1, n).value, t) == e - n)
            && Ticks(s1, e + 1) == Dispatch(Spent(s1))
  {
    DispatchProper(s);
    Quantum(s1);
    if n <= Eff(s1, s1.cur) { CountsDown(s1, n); }
  }

  lemma {:induction false} CountsDown(s: Sched, n: nat)
    requires Proper(s) && n <= Eff(s, s.cur)
    ensures Ticks(s, n).Some? && Ticks(s, n).value.cur == s.cur && Eff(Ticks(s, n).value, s.cur) == Eff(s, s.cur) - n
    decreases n
  {
    if n > 0 { CountsDown(Tick(s).value, n - 1); }
  }

  /** The state after m switches, and the ticks they take. */
  function Turns(s: Sched, m: nat): Sched
    decreases m
  {
    if m == 0 then s
    else match Dispatch(Spent(s)) case None => s case Some(s1) => Turns(s1, m - 1)
  }

  function Time(s: Sched, m: nat): nat
    decreases m
  {
    if m == 0 then 0
    else match Dispatch(Spent(s)) case None => 0 case Some(s1) => Eff(s, s.cur) + 1 + Time(s1, m - 1)
  }

  lemma {:induction false} TurnsTicks(s: Sched, m: nat)
    requires Proper(s)
    ensures Ticks(s, Time(s, m)) == Some(Turns(s, m))
    decreases m
  {
    if m > 0 {
      Quantum(s);
      DispatchProper(Spent(s));
      var s1 := Dispatch(Spent(s)).value;
      TurnsTicks(s1, m - 1);
      TicksAdd(s, Eff(s, s.cur) + 1, Time(s1, m - 1));
    }
  }

  // ---------------------------------------------------------------- bounded waiting

  /** No queued thread has more ticks left than a refresh gives. */
  predicate Bounded(s: Sched)
    requires Proper(s)
  {
    forall t :: t in s.queue ==> s.eff[t] <= 2 * s.stat[t]
  }

  /** The position m places behind position i, in cyclic order. */
  function Shift(i: nat, m: nat, n: nat): nat
    requires i < n && m <= n
  {
    if i + m < n then i + m else i + m - n
  }

  /** The longest turns of the m threads from position i on, in cyclic order. */
  function Longest(s: Sched, i: nat, m: nat): nat
    requires Proper(s) && i < |s.queue|
    decreases m
  {
    if m == 0 then 0
    else
      assert s.queue[i] in s.queue;
      2 * s.stat[s.queue[i]] + 1 + Longest(s, Shift(i, 1, |s.queue|), m - 1)
  }

  lemma PosOfAt(q: seq<nat>, i: nat)
    requires i < |q| && forall a, b :: 0 <= a < b < |q| ==> q[a] != q[b]
    ensures PosOf(q, q[i]) == i
  {
  }

  /** The successor of the thread at position i is the one behind it, or the first one. */
  lemma NextInCycle(s: Sched, i: nat)
    requires Proper(s) && i < |s.queue| && s.cur == s.queue[i]
    ensures Successor(s) == Some(s.queue[Shift(i, 1, |s.queue|)])
  {
    PosOfAt(s.queue, i);
    assert s.queue[i] in s.queue;
  }

  /** m switches go through the next m threads of the cycle, each within its longest turn. */
  lemma {:induction false} RoundRobin(s: Sched, i: nat, m: nat)
    requires Proper(s) && Bounded(s) && i < |s.queue| && s.cur == s.queue[i] && m <= |s.queue|
    ensures Proper(Turns(s, m)) && Turns(s, m).queue == s.queue && Turns(s, m).cur == s.queue[Shift(i, m, |s.queue|)]
    ensures Time(s, m) <= Longest(s, i, m)
    decreases m
  {
    if m > 0 {
      var n := |s.queue|;
      var s1 := TurnOnce(s, i);
      var k := Shift(i, 1, n);
      RoundRobin(s1, k, m - 1);
      SameLongest(s, s1, k, m - 1);
      TurnsFirst(s, m, s1);
      assert Shift(k, m - 1, n) == Shift(i, m, n);
      LongestFirst(s, i, m);
    }
  }

  /** The running thread does not exceed its longest turn. */
  lemma LongestFirst(s: Sched, i: nat, m: nat)
    requires Proper(s) && Bounded(s) && i < |s.queue| && s.cur == s.queue[i] && m > 0
    ensures Eff(s, s.cur) + 1 + Longest(s, Shift(i, 1, |s.queue|), m - 1) <= Longest(s, i, m)
  {
    assert s.queue[i] in s.queue;
  }

  /** The first of m turns taken apart. */
  lemma TurnsFirst(s: Sched, m: nat, s1: Sched)
    requires m > 0 && Dispatch(Spent(s)) == Some(s1)
    ensures Turns(s, m) == Turns(s1, m - 1) && Time(s, m) == Eff(s, s.cur) + 1 + Time(s1, m - 1)
  {
  }

  lemma TurnOnce(s: Sched, i: nat) returns (s1: Sched)
    requires Proper(s) && Bounded(s) && i < |s.queue| && s.cur == s.queue[i]
    ensures Dispatch(Spent(s)) == Some(s1) && Proper(s1) && Bounded(s1) && s1.queue == s.queue && s1.stat == s.stat
    ensures s1.cur == s.queue[Shift(i, 1, |s.queue|)]
  {
    var s0 := Spent(s);
    NextInCycle(s0, i);
    DispatchProper(s0);
    s1 := Dispatch(s0).value;
  }

  lemma {:induction false} SameLongest(s: Sched, t: Sched, i: nat, m: nat)
    requires Proper(s) && Proper(t) && s.queue == t.queue && i < |s.queue| && s.stat == t.stat
    ensures Longest(s, i, m) == Longest(t, i, m)
    decreases m
  {
    if m > 0 { SameLongest(s, t, Shift(i, 1, |s.queue|), m - 1); }
  }

  /** All queued threads but the running one have used up their ticks. */
  predicate Settled(s: Sched)
    requires Proper(s)
  {
    forall t :: t in s.queue && t != s.cur ==> s.eff[t] == 0
  }

  /** In the long run the bound is exact: with no ticks left over every turn has its full length. */
  lemma {:induction false} ExactRound(s: Sched, i: nat, m: nat)
    requires Proper(s) && Settled(s) && |s.queue| > 1 && i < |s.queue| && s.cur == s.queue[i] && 0 < m <= |s.queue|
    ensures Time(s, m) == Eff(s, s.cur) + 1 + Longest(s, Shift(i, 1, |s.queue|), m - 1)
    ensures Proper(Turns(s, m)) && Settled(Turns(s, m))
    decreases m
  {
    var k := Shift(i, 1, |s.queue|);
    var s1 := SettledTurn(s, i);
    TurnsFirst(s, m, s1);
    if m > 1 {
      ExactRound(s1, k, m - 1);
      SameLongest(s, s1, Shift(k, 1, |s.queue|), m - 2);
      assert s.queue[k] in s.queue;
    } else {
      assert Turns(s1, 0) == s1;
    }
  }

  lemma SettledTurn(s: Sched, i: nat) returns (s1: Sched)
    requires Proper(s) && Settled(s) && |s.queue| > 1 && i < |s.queue| && s.cur == s.queue[i]
    ensures Dispatch(Spent(s)) == Some(s1) && Proper(s1) && Settled(s1) && s1.queue == s.queue && s1.stat == s.stat
    ensures s1.cur == s.queue[Shift(i, 1, |s.queue|)] && Eff(s1, s1.cur) == 2 * Stat(s, s1.cur)
  {
    var s0 := Spent(s);
    NextInCycle(s0, i);
    DispatchProper(s0);
    s1 := Dispatch(s0).value;
    assert s1.cur in s.queue && s1.cur != s.cur;
  }

  /** The longest turns of all threads of q. */
  function Sum(q: seq<nat>, stat: map<nat, nat>): nat
    requires forall t :: t in q ==> t in stat
  {
    if q == [] then 0 else assert q[0] in q; 2 * stat[q[0]] + 1 + Sum(q[1..], stat)
  }

  lemma {:induction false} SumMore(a: seq<nat>, b: seq<nat>, stat: map<nat, nat>)
    requires (forall t :: t in a ==> t in stat) && (forall t :: t in b ==> t in stat) && (forall t :: t in a + b ==> t in stat)
    ensures Sum(a + b, stat) == Sum(a, stat) + Sum(b, stat)
  {
    if a == [] {
      assert a + b == b;
    } else {
      assert (a + b)[1..] == a[1..] + b;
      SumMore(a[1..], b, stat);
    }
  }

  /** The cyclic sum as a sum over one or two parts of the queue. */
  lemma {:induction false} LongestParts(s: Sched, i: nat, m: nat)
    requires Proper(s) && i < |s.queue| && m <= |s.queue|
    ensures var (q, n) := (s.queue, |s.queue|);
            Longest(s, i, m) == if i + m <= n then Sum(q[i..i + m], s.stat) else Sum(q[i..], s.stat) + Sum(q[..i + m - n], s.stat)
    decreases m
  {
    var q, n := s.queue, |s.queue|;
    if m > 0 {
      LongestParts(s, Shift(i, 1, n), m - 1);
      if i + m <= n {
        assert q[i..i + m] == [q[i]] + q[i + 1..i + m];
        if i + 1 == n { assert q[i + 1..i + m] == q[0..0 + (m - 1)]; }
      } else {
        assert q[i..] == [q[i]] + q[i + 1..];
        if i + 1 == n { assert q[0..m - 1] == q[..i + m - n] && q[i + 1..] == []; }
      }
    }
  }

  /** A queue in three parts. */
  lemma SumParts(q: seq<nat>, a: seq<nat>, b: seq<nat>, c: seq<nat>, stat: map<nat, nat>)
    requires q == a + (b + c) && forall t :: t in q ==> t in stat
    ensures (forall t :: t in a ==> t in stat) && (forall t :: t in b ==> t in stat) && (forall t :: t in c ==> t in stat)
    ensures Sum(q, stat) == Sum(a, stat) + Sum(b, stat) + Sum(c, stat)
  {
    assert forall t :: t in q <==> t in a || t in b + c;
    assert forall t :: t in b + c <==> t in b || t in c;
    SumMore(b, c, stat);
    SumMore(a, b + c, stat);
  }

  /** A whole round from any position takes at most the sum over the queue. */
  lemma RoundSum(s: Sched, i: nat, m: nat)
    requires Proper(s) && i < |s.queue| && m <= |s.queue|
    ensures Longest(s, i, m) <= Sum(s.queue, s.stat)
  {
    var q, n := s.queue, |s.queue|;
    LongestParts(s, i, m);
    if i + m <= n {
      assert q == q[..i] + (q[i..i + m] + q[i + m..]);
      SumParts(q, q[..i], q[i..i + m], q[i + m..], s.stat);
    } else {
      var k := i + m - n;
      assert q == q[..k] + (q[k..i] + q[i..]);
      SumParts(q, q[..k], q[k..i], q[i..], s.stat);
    }
  }

  /**
   Bounded waiting.  With a fixed queue of one or more threads the thread j places on is
   dispatched after exactly j switches, no later than the sum over the queue of twice the
   static priority plus one tick each; the idle thread is not dispatched in between.
   */
  lemma BoundedWaiting(s: Sched, i: nat, j: nat)
    requires Proper(s) && Bounded(s) && i < |s.queue| && s.cur == s.queue[i] && 0 < j <= |s.queue|
    ensures Ticks(s, Time(s, j)) == Some(Turns(s, j)) && Turns(s, j).cur == s.queue[Shift(i, j, |s.queue|)]
    ensures 0 < Time(s, j) <= Sum(s.queue, s.stat)
    ensures forall m :: 0 <= m <= j ==> Turns(s, m).cur != s.idle
  {
    TurnsTicks(s, j);
    RoundRobin(s, i, j);
    RoundSum(s, i, j);
    forall m | 0 <= m <= j ensures Turns(s, m).cur != s.idle {
      RoundRobin(s, i, m);
      assert s.queue[Shift(i, m, |s.queue|)] in s.queue;
    }
    var s1 := TurnOnce(s, i);
  }

  /**
   The same from a thread that is not queued, the idle thread or one that has been stopped: the
   thread at position j follows after j + 1 switches, and the ticks that the running thread has
   left come on top.
   */
  lemma WaitingFromOutside(s: Sched, j: nat)
    requires Proper(s) && Bounded(s) && s.cur !in s.queue && j < |s.queue|
    ensures Ticks(s, Time(s, j + 1)) == Some(Turns(s, j + 1)) && Turns(s, j + 1).cur == s.queue[j]
    ensures Time(s, j + 1) <= Eff(s, s.cur) + 1 + Sum(s.queue, s.stat)
    ensures forall m :: 0 < m <= j + 1 ==> Turns(s, m).cur != s.idle
  {
    TurnsTicks(s, j + 1);
    var s1 := EntersQueue(s);
    forall m: nat | m <= j
      ensures Turns(s, m + 1).cur == s.queue[m] && Time(s, m + 1) <= Eff(s, s.cur) + 1 + Sum(s.queue, s.stat) && s.queue[m] in s.queue
    {
      TurnsFirst(s, m + 1, s1);
      RoundRobin(s1, 0, m);
      RoundSum(s1, 0, m);
    }
    forall m | 0 < m <= j + 1 ensures Turns(s, m).cur != s.idle { assert Turns(s, (m - 1) + 1).cur == s.queue[m - 1]; }
    assert Turns(s, j + 1).cur == s.queue[j];
  }

  /** From outside the queue the walk comes to its first thread. */
  lemma EntersQueue(s: Sched) returns (s1: Sched)
    requires Proper(s) && Bounded(s) && s.cur !in s.queue && s.queue != []
    ensures Dispatch(Spent(s)) == Some(s1) && Proper(s1) && Bounded(s1) && s1.queue == s.queue && s1.stat == s.stat
    ensures s1.cur == s.queue[0]
  {
    var s0 := Spent(s);
    DispatchProper(s0);
    assert PosOf(s0.queue, s0.cur) == |s0.queue|;
    s1 := Dispatch(s0).value;
  }

  /** A single queued thread is dispatched at every switch, whichever thread runs at first, and the idle thread never. */
  lemma {:induction false} SingleThread(s: Sched, m: nat)
    requires Proper(s) && |s.queue| == 1 && m > 0
    ensures Turns(s, m).cur == s.queue[0] != s.idle && Ticks(s, Time(s, m)) == Some(Turns(s, m))
    decreases m
  {
    var s0 := Spent(s);
    NeverNull(s0);
    DispatchProper(s0);
    var s1 := Dispatch(s0).value;
    assert s1.cur in s.queue;
    TurnsFirst(s, m, s1);
    TurnsTicks(s, m);
    if m > 1 { SingleThread(s1, m - 1); }
  }

  /** On an empty queue the idle thread runs on. */
  lemma {:induction false} IdleRunsOn(s: Sched, m: nat)
    requires Proper(s) && s.queue == [] && m > 0
    ensures Turns(s, m).cur == s.idle && Ticks(s, Time(s, m)) == Some(Turns(s, m))
    decreases m
  {
    var s0 := Spent(s);
    IdleIff(s0);
    DispatchProper(s0);
    var s1 := Dispatch(s0).value;
    TurnsFirst(s, m, s1);
    TurnsTicks(s, m);
    if m > 1 { IdleRunsOn(s1, m - 1); }
  }

  // ---------------------------------------------------------------- starting and stopping threads

  /** The ticks a thread starts with: a quarter of what it had left counts again. */
  function StartTicks(s: Sched, t: nat): nat
    requires Proper(s) && t in s.eff
  {
    (s.eff[t] / 4 + s.stat[t]) * 2
  }

  /** ksched_start_thread for a thread that may run. */
  function Start(s: Sched, t: nat): Sched
    requires Proper(s) && t in s.eff
  {
    if t in s.queue || t == s.idle then s
    else
      var e, i := StartTicks(s, t), PosOf(s.queue, s.cur);
      var q := if e >= s.eff[s.cur] && s.cur != s.idle && i < |s.queue| then s.queue[..i + 1] + [t] + s.queue[i + 1..] else [t] + s.queue;
      s.(queue := q, eff := s.eff[t := e])
  }

  /** ksched_stop_thread. */
  function Stop(s: Sched, t: nat): Sched {
    var i := PosOf(s.queue, t);
    if i < |s.queue| then s.(queue := s.queue[..i] + s.queue[i + 1..]) else s
  }

  lemma StartProper(s: Sched, t: nat)
    requires Proper(s) && t in s.eff
    ensures Proper(Start(s, t)) && (t != s.idle ==> t in Start(s, t).queue)
    ensures forall x :: x in s.queue ==> x in Start(s, t).queue
  {
    var q, i := s.queue, PosOf(s.queue, s.cur);
    if i < |q| { assert q == q[..i + 1] + q[i + 1..]; }
  }

  lemma StopProper(s: Sched, t: nat)
    requires Proper(s)
    ensures Proper(Stop(s, t)) && forall x :: x in Stop(s, t).queue <==> x in s.queue && x != t
  {
    var q, i := s.queue, PosOf(s.queue, t);
    if i < |q| { assert q == q[..i] + [q[i]] + q[i + 1..]; }
  }

  /**
   Where a started thread stands: it is dispatched next unless the running thread is queued, not
   the last, and has more ticks left than the new one gets; then it is put at the front, behind
   all that follow.  No other thread changes its ticks.
   */
  lemma StartedNext(s: Sched, t: nat)
    requires Proper(s) && t in s.eff && t !in s.queue && t != s.idle && t != s.cur
    ensures var s' := Start(s, t);
            && s'.eff == s.eff[t := 2 * (s.eff[t] / 4) + 2 * s.stat[t]] && s'.cur == s.cur && s'.stat == s.stat
            && (Successor(s') == Some(t) <==>
                 s.cur !in s.queue || s.cur == s.queue[|s.queue| - 1] || 2 * (s.eff[t] / 4) + 2 * s.stat[t] >= s.eff[s.cur])
            && (Successor(s') != Some(t) ==> s'.queue == [t] + s.queue)
  {
    var s', i := Start(s, t), PosOf(s.queue, s.cur);
    StartProper(s, t);
    NeverNull(s');
    if i < |s.queue| {
      var k := if s'.queue == [t] + s.queue then i + 1 else i;
      assert s'.queue[k] == s.cur;
      NextInCycle(s', k);
      if i + 1 < |s.queue| { assert s.queue[i + 1] != t; }
    } else {
      assert s'.queue == [t] + s.queue;
      assert s.cur !in s.queue && s.cur !in s'.queue;
    }
  }

  /** A stopped thread leaves the queue, in which the others stay as they stand; the thread behind it moves up. */
  lemma StopTakesOut(s: Sched, t: nat)
    requires Proper(s)
    ensures var (s', i) := (Stop(s, t), PosOf(s.queue, t));
            && s'.eff == s.eff && s'.stat == s.stat && s'.cur == s.cur && s'.idle == s.idle
            && (t in s.queue ==> i <= |s'.queue| && s.queue == s'.queue[..i] + [t] + s'.queue[i..])
            && (t !in s.queue ==> s' == s)
  {
    var q, i := s.queue, PosOf(s.queue, t);
    if i < |q| {
      var r := Stop(s, t).queue;
      assert r[..i] == q[..i] && r[i..] == q[i + 1..] && q == q[..i] + [q[i]] + q[i + 1..];
    }
  }

  /** A thread stopped as it has been started leaves the queue as it was. */
  lemma StopUndoesStart(s: Sched, t: nat)
    requires Proper(s) && t in s.eff && t !in s.queue && t != s.idle
    ensures Stop(Start(s, t), t).queue == s.queue
  {
    var s1, i := Start(s, t), PosOf(Start(s, t).queue, t);
    StartProper(s, t);
    assert s1.queue[i] == t;
    var k := if s1.queue == [t] + s.queue then 0 else PosOf(s.queue, s.cur) + 1;
    assert s1.queue[k] == t && i == k;
  }

  /** Starting a thread keeps the bound of the waiting theorem unless the thread had four ticks or more left. */
  lemma StartKeepsBound(s: Sched, t: nat)
    requires Proper(s) && Bounded(s) && t in s.eff && t !in s.queue && t != s.idle
    ensures Proper(Start(s, t)) && (Bounded(Start(s, t)) <==> s.eff[t] < 4)
  {
    StartProper(s, t);
    var s1 := Start(s, t);
    assert t in s1.queue && s1.eff[t] == (s.eff[t] / 4 + s.stat[t]) * 2;
    forall x | x in s1.queue && x != t ensures x in s.queue && s1.eff[x] == s.eff[x] {
      var i := PosOf(s.queue, s.cur);
      if i < |s.queue| { assert s.queue == s.queue[..i + 1] + s.queue[i + 1..]; }
    }
  }
}
