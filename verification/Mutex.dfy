/**
 The blocking mutex with FIFO hand-off, on one processor with timer preemption. The two sections under
 the internal spinlock run with interrupts disabled and are atomic; everything else can be preempted,
 including the gap in mutex_acquire between releasing the internal lock and yielding.
 */
module Mutex {
  import opened Seqs

  datatype State = Ready | Running | Blocked

  /** Where a thread stands: outside, owner after mutex_acquire returned, or inside mutex_acquire. */
  datatype Pc = Outside | Owner | BeforeYield | InYield

  /** What struct mutex and the thread states say */
  datatype Lock = Lock(locked: bool, queue: seq<nat>, state: map<nat, State>)

  /** The section of mutex_acquire under the internal lock */
  function AcquireSection(m: Lock, me: nat): (r: Lock) {
    if !m.locked then m.(locked := true)
    else m.(queue := m.queue + [me], state := m.state[me := Blocked])
  }

  /** The section of mutex_release under the internal lock */
  function ReleaseSection(m: Lock): (r: Lock) {
    if m.queue == [] then m.(locked := false)
    else m.(queue := m.queue[1..], state := m.state[m.queue[0] := Ready])
  }

  // ----- the sections on the intrusive queue -----

  ghost predicate LinkAt(next: map<nat, nat>, q: seq<nat>, i: nat)
    requires i < |q|
  {
    q[i] in next && next[q[i]] == if i + 1 < |q| then q[i + 1] else 0
  }

  /** Head, tail and next_waiter pointers describe the queue; a null pointer is 0. */
  ghost predicate Chain(head: nat, tail: nat, next: map<nat, nat>, q: seq<nat>) {
    && head == (if q == [] then 0 else q[0])
    && tail == (if q == [] then 0 else q[|q| - 1])
    && (forall i | 0 <= i < |q| :: q[i] != 0)
    && Distinct(q)
    && (forall i: nat | i < |q| :: LinkAt(next, q, i))
  }

  class KernelMutex {
    var isLocked: bool
    var head: nat
    var tail: nat
    var next: map<nat, nat>       // thread.next_waiter
    var state: map<nat, State>    // thread.state
    ghost var queue: seq<nat>

    ghost predicate Valid()
      reads this
    {
      Chain(head, tail, next, queue)
    }

    ghost function View(): (m: Lock)
      reads this
    {
      Lock(isLocked, queue, state)
    }

    constructor (threads: map<nat, State>)
      ensures Valid() && View() == Lock(false, [], threads)
    {
      isLocked, head, tail, next, state, queue := false, 0, 0, map[], threads, [];
    }

    /** mutex_acquire up to the release of the internal lock; false when the caller must yield */
    method Acquire(me: nat) returns (owned: bool)
      requires Valid() && me != 0 && me !in queue
      modifies this
      ensures Valid() && View() == AcquireSection(old(View()), me)
      ensures owned <==> !old(isLocked)
    {
      if !isLocked {
        isLocked := true;
        return true;
      }
      next := next[me := 0];
      if tail == 0 {
        head, tail := me, me;
      } else {
        next := next[tail := me];
        tail := me;
      }
      state := state[me := Blocked];
      ghost var q := queue;
      queue := queue + [me];
      forall i: nat | i < |queue| ensures LinkAt(next, queue, i) {
        if i < |q| { assert LinkAt(old(next), q, i); }
      }
      return false;
    }

    /** mutex_release */
    method Release()
      requires Valid()
      modifies this
      ensures Valid() && View() == ReleaseSection(old(View()))
    {
      if head == 0 {
        isLocked := false;
      } else {
        var woken := head;
        assert LinkAt(next, queue, 0);
        head := next[head];
        if head == 0 { tail := 0; }
        state := state[woken := Ready];
        ghost var q := queue;
        queue := queue[1..];
        forall i: nat | i < |queue| ensures LinkAt(next, queue, i) { assert LinkAt(next, q, i + 1); }
      }
    }
  }

  // ----- all interleavings -----

  datatype Sys = Sys(lock: Lock, pc: map<nat, Pc>, cur: nat)

  datatype Step = Acquire | Release | Preempt(next: nat) | Yield(next: nat) | Return

  /** scheduler_schedule: demotes a running current thread and runs any ready one */
  predicate Switch(m: Lock, cur: nat, next: nat, m': Lock) {
    && cur in m.state
    && var d := if m.state[cur] == Running then m.state[cur := Ready] else m.state;
       next in d && d[next] == Ready && m' == m.(state := d[next := Running])
  }

  predicate Next(s: Sys, e: Step, s': Sys) {
    && s.cur in s.pc && s.cur in s.lock.state
    && var running := s.lock.state[s.cur] == Running;
       match e
       case Acquire =>
         && running && s.pc[s.cur] == Outside
         && s' == Sys(AcquireSection(s.lock, s.cur),
                      s.pc[s.cur := if s.lock.locked then BeforeYield else Owner], s.cur)
       case Release =>
         && running && s.pc[s.cur] == Owner
         && s' == Sys(ReleaseSection(s.lock), s.pc[s.cur := Outside], s.cur)
       case Preempt(n) =>
         Switch(s.lock, s.cur, n, s'.lock) && s'.pc == s.pc && s'.cur == n
       case Yield(n) =>
         && s.pc[s.cur] == BeforeYield
         && Switch(s.lock, s.cur, n, s'.lock) && s'.pc == s.pc[s.cur := InYield] && s'.cur == n
       case Return =>
         running && s.pc[s.cur] == InYield && s' == s.(pc := s.pc[s.cur := Owner])
  }

  ghost predicate Waiting(s: Sys, t: nat) {
    t in s.pc && (s.pc[t] == BeforeYield || s.pc[t] == InYield)
  }

  /** The threads the mutex belongs to: those that returned, and those woken on their way to return */
  ghost predicate Owns(s: Sys, t: nat) {
    t in s.pc && (s.pc[t] == Owner || (Waiting(s, t) && t !in s.lock.queue))
  }

  /** Everything the mutex keeps; o is the owner, or -1 */
  ghost predicate Inv(s: Sys, o: int) {
    var m := s.lock;
    && m.state.Keys == s.pc.Keys && s.cur in s.pc
    && Distinct(m.queue) && (forall t | t in m.queue :: t in s.pc)
    && (forall t | t in s.pc :: t in m.queue <==> m.state[t] == Blocked)
    && (forall t | t in m.queue :: Waiting(s, t))
    && (forall t | t in s.pc && m.state[t] == Running :: t == s.cur)
    && (m.state[s.cur] == Running || (m.state[s.cur] == Blocked && s.pc[s.cur] == BeforeYield))
    && (m.locked <==> o != -1)
    && (forall t: nat | t in s.pc :: Owns(s, t) <==> t == o)
    && (o != -1 ==> o >= 0 && o in s.pc)
    && (m.queue != [] ==> m.locked)
  }

  ghost predicate Start(s: Sys) {
    && s.lock.state.Keys == s.pc.Keys && s.cur in s.pc
    && !s.lock.locked && s.lock.queue == []
    && (forall t | t in s.pc :: s.pc[t] == Outside && s.lock.state[t] == if t == s.cur then Running else Ready)
  }

  ghost function NextOwner(s: Sys, e: Step, o: int): (r: int) {
    match e
    case Acquire => if s.lock.locked then o else s.cur
    case Release => if s.lock.queue == [] then -1 else s.lock.queue[0]
    case _ => o
  }

  lemma AcquireKeeps(s: Sys, s': Sys, o: int)
    requires Inv(s, o) && Next(s, Acquire, s')
    ensures Inv(s', NextOwner(s, Acquire, o))
  {
    if s.lock.locked {
      assert s.cur !in s.lock.queue;
      forall t: nat | t in s'.pc ensures Owns(s', t) <==> t == o { assert Owns(s, t) <==> t == o; }
    } else {
      forall t: nat | t in s'.pc ensures Owns(s', t) <==> t == s.cur { assert Owns(s, t) <==> t == o; }
    }
  }

  lemma ReleaseKeeps(s: Sys, s': Sys, o: int)
    requires Inv(s, o) && Next(s, Release, s')
    ensures o == s.cur && Inv(s', NextOwner(s, Release, o))
  {
    assert Owns(s, s.cur);
    var q := s.lock.queue;
    if q == [] {
      forall t: nat | t in s'.pc ensures !Owns(s', t) { assert Owns(s, t) <==> t == o; }
    } else {
      assert q[0] in q && s.cur !in q;
      forall t | t in s'.pc ensures t in q[1..] <==> t in q && t != q[0] {
        if t in q && t != q[0] { var i: nat :| i < |q| && q[i] == t; assert q[1..][i - 1] == t; }
      }
      forall t: nat | t in s'.pc ensures Owns(s', t) <==> t == q[0] { assert Owns(s, t) <==> t == o; }
    }
  }

  lemma SwitchKeeps(s: Sys, e: Step, s': Sys, o: int)
    requires Inv(s, o) && Next(s, e, s') && (e.Preempt? || e.Yield?)
    ensures Inv(s', o)
  {
    forall t: nat | t in s'.pc ensures Owns(s', t) <==> t == o { assert Owns(s, t) <==> t == o; }
    assert s'.lock.state.Keys == s'.pc.Keys;
  }

  lemma ReturnKeeps(s: Sys, s': Sys, o: int)
    requires Inv(s, o) && Next(s, Return, s')
    ensures Inv(s', o) && o == s.cur
  {
    assert s.cur !in s.lock.queue && Owns(s, s.cur);
    forall t: nat | t in s'.pc ensures Owns(s', t) <==> t == o { assert Owns(s, t) <==> t == o; }
  }

  /** Every step keeps the invariant and moves ownership as NextOwner says. */
  lemma StepKeeps(s: Sys, e: Step, s': Sys, o: int)
    requires Inv(s, o) && Next(s, e, s')
    ensures Inv(s', NextOwner(s, e, o))
  {
    hide Inv;
    match e
    case Acquire => AcquireKeeps(s, s', o);
    case Release => ReleaseKeeps(s, s', o);
    case Return => ReturnKeeps(s, s', o);
    case _ => SwitchKeeps(s, e, s', o);
  }

  ghost predicate Steps(states: seq<Sys>, steps: seq<Step>) {
    && |states| == |steps| + 1
    && forall i | 0 <= i < |steps| :: Next(states[i], steps[i], states[i + 1])
  }

  ghost predicate Run(states: seq<Sys>, steps: seq<Step>) {
    Steps(states, steps) && Start(states[0])
  }

  lemma StepsSplit(states: seq<Sys>, steps: seq<Step>)
    requires Steps(states, steps) && steps != []
    ensures Steps(states[..|steps|], steps[..|steps| - 1])
    ensures Next(states[|steps| - 1], steps[|steps| - 1], states[|steps|])
  {
    var a, b := states[..|steps|], steps[..|steps| - 1];
    forall i | 0 <= i < |b| ensures Next(a[i], b[i], a[i + 1]) { assert Next(states[i], steps[i], states[i + 1]); }
  }

  lemma {:induction false} StepsKeep(states: seq<Sys>, steps: seq<Step>, o: int) returns (o': int)
    requires Steps(states, steps) && Inv(states[0], o)
    ensures Inv(states[|steps|], o')
    decreases |steps|
  {
    hide Inv, Next;
    if steps == [] {
      o' := o;
    } else {
      var n := |steps| - 1;
      StepsSplit(states, steps);
      o' := StepsKeep(states[..n + 1], steps[..n], o);
      StepKeeps(states[n], steps[n], states[n + 1], o');
      o' := NextOwner(states[n], steps[n], o');
    }
  }

  /** Safety of every reachable state. */
  lemma RunSafe(states: seq<Sys>, steps: seq<Step>) returns (o: int)
    requires Run(states, steps)
    ensures Inv(states[|steps|], o)
  {
    o := StepsKeep(states, steps, -1);
  }

  /** At most one owner; a non-empty queue means locked; the queue is exactly the blocked threads. */
  lemma RunExclusive(states: seq<Sys>, steps: seq<Step>, a: nat, b: nat)
    requires Run(states, steps)
    ensures var s := states[|steps|];
            && (Owns(s, a) && Owns(s, b) ==> a == b)
            && (s.lock.queue != [] ==> s.lock.locked)
            && Distinct(s.lock.queue)
            && (a in s.lock.queue <==> a in s.lock.state && s.lock.state[a] == Blocked)
  {
    var o := RunSafe(states, steps);
  }

  /**
   No wakeup is lost: a thread inside mutex_acquire that is not queued is the owner and can be
   scheduled, and a few scheduler steps bring it out of mutex_acquire.
   */
  lemma WokenReturns(states: seq<Sys>, steps: seq<Step>, t: nat) returns (more: seq<Sys>, es: seq<Step>)
    requires Run(states, steps) && Waiting(states[|steps|], t) && t !in states[|steps|].lock.queue
    ensures |es| <= 3 && Steps(more, es) && more[0] == states[|steps|] && t in more[|es|].pc
    ensures more[|es|].pc[t] == Owner
  {
    var o := RunSafe(states, steps);
    var s := states[|steps|];
    assert s.lock.state[t] != Blocked;
    var s1 := if t == s.cur then s else RunNow(s, t);
    var es1 := if t == s.cur then [] else [Preempt(t)];
    var m1 := if t == s.cur then [s] else [s, s1];
    if s1.pc[t] == BeforeYield {
      var s2 := s1.(pc := s1.pc[t := InYield]);
      assert Next(s1, Yield(t), s2) by { assert s1.lock.state[t := Ready][t := Running] == s1.lock.state; }
      var s3 := s2.(pc := s2.pc[t := Owner]);
      assert Next(s2, Return, s3);
      more, es := m1 + [s2, s3], es1 + [Yield(t), Return];
    } else {
      var s3 := s1.(pc := s1.pc[t := Owner]);
      assert Next(s1, Return, s3);
      more, es := m1 + [s3], es1 + [Return];
    }
  }

  /** The state after the scheduler picks a ready thread */
  ghost function RunNow(s: Sys, t: nat): (r: Sys)
    requires s.cur in s.pc && s.cur in s.lock.state && t in s.lock.state && t != s.cur && s.lock.state[t] == Ready
    ensures Next(s, Preempt(t), r) && r.cur == t && r.lock.state[t] == Running && r.pc == s.pc
  {
    var d := if s.lock.state[s.cur] == Running then s.lock.state[s.cur := Ready] else s.lock.state;
    Sys(s.lock.(state := d[t := Running]), s.pc, t)
  }

  function Releases(steps: seq<Step>): (n: nat) {
    if steps == [] then 0 else Releases(steps[..|steps| - 1]) + (if steps[|steps| - 1].Release? then 1 else 0)
  }

  /** Strict hand-off: a waiter with k threads ahead moves up once per release and owns the mutex at release k + 1. */
  lemma {:induction false} WaiterAdvances(states: seq<Sys>, steps: seq<Step>, o: int, w: nat, k: nat) returns (o': int)
    requires Steps(states, steps) && Inv(states[0], o)
    requires k < |states[0].lock.queue| && states[0].lock.queue[k] == w
    requires Releases(steps) <= k + 1 && (Releases(steps) == k + 1 ==> steps[|steps| - 1].Release?)
    ensures Inv(states[|steps|], o')
    ensures var q, r := states[|steps|].lock.queue, Releases(steps);
            if r <= k then k - r < |q| && q[k - r] == w else o' == w
    decreases |steps|
  {
    hide Inv;
    if steps == [] {
      o' := o;
    } else {
      var n := |steps| - 1;
      StepsSplit(states, steps);
      var before := states[..n + 1];
      assert before[n] == states[n] && before[0] == states[0];
      o' := WaiterAdvances(before, steps[..n], o, w, k);
      StepKeeps(states[n], steps[n], states[n + 1], o');
      o' := NextOwner(states[n], steps[n], o');
    }
  }
}
