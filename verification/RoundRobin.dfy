/**
 The round-robin order as one ring of threads: which thread a schedule picks, the timer, and
 how long a ready thread can wait. The two-level search of the kernel is proved against this.
 */
module RoundRobin {
  import opened Seqs

  datatype State = Ready | Running | Blocked | Zombie | Sleeping

  datatype Thread = Thread(state: State, ticks: nat, wake: nat)

  /** THREAD_INITIAL_TICKS */
  const SLICE: nat := 4

  /** All threads in the order of the rings, their descriptors, and thread_current */
  datatype Cpu = Cpu(ring: seq<nat>, threads: map<nat, Thread>, cur: nat)

  ghost predicate Wf(s: Cpu) {
    && Distinct(s.ring) && s.cur in s.ring
    && (forall t | t in s.ring :: t in s.threads)
  }

  /** No thread but the current one is running, and every time slice has between 1 and 4 ticks left. */
  ghost predicate Inv(s: Cpu) {
    && Wf(s)
    && (forall t | t in s.ring && s.threads[t].state == Running :: t == s.cur)
    && (forall t | t in s.ring :: 1 <= s.threads[t].ticks <= SLICE)
  }

  lemma CurrentSlice(s: Cpu)
    requires Inv(s)
    ensures s.cur in s.threads && 1 <= s.threads[s.cur].ticks <= SLICE
  {
  }

  /** The threads behind position c, in cyclic order, up to and including the one at c */
  function After(ring: seq<nat>, c: nat): (r: seq<nat>)
    requires c < |ring|
    ensures |r| == |ring|
  {
    ring[c + 1..] + ring[..c + 1]
  }

  function Demote(threads: map<nat, Thread>, cur: nat): (r: map<nat, Thread>)
    requires cur in threads
  {
    if threads[cur].state == Running then threads[cur := threads[cur].(state := Ready)] else threads
  }

  ghost predicate IsReady(threads: map<nat, Thread>, t: nat) {
    t in threads && threads[t].state == Ready
  }

  ghost predicate FirstReady(order: seq<nat>, threads: map<nat, Thread>, r: nat) {
    && r < |order| && IsReady(threads, order[r])
    && forall i: nat | i < r :: !IsReady(threads, order[i])
  }

  /** scheduler_schedule: the first ready thread behind the current one becomes current and running. */
  ghost predicate Scheduled(s: Cpu, s': Cpu, c: nat, r: nat) {
    && c < |s.ring| && s.ring[c] == s.cur && s.cur in s.threads
    && var d := Demote(s.threads, s.cur);
       && FirstReady(After(s.ring, c), d, r)
       && s'.ring == s.ring && s'.cur == After(s.ring, c)[r]
       && s'.threads == d[s'.cur := d[s'.cur].(state := Running)]
  }

  ghost predicate Schedule(s: Cpu, s': Cpu) {
    exists c: nat, r: nat :: Scheduled(s, s', c, r)
  }

  /** scheduler_wake_sleeping_threads */
  function Woken(t: Thread, now: nat): (r: Thread) {
    if t.state == Sleeping && t.wake <= now then Thread(Ready, t.ticks, 0) else t
  }

  function WakeAll(threads: map<nat, Thread>, now: nat): (r: map<nat, Thread>) {
    map t | t in threads :: Woken(threads[t], now)
  }

  /** The descriptors after the wake-up loop, with n ticks left for the current thread */
  function Sliced(s: Cpu, now: nat, n: nat): (r: map<nat, Thread>)
    requires s.cur in s.threads
  {
    var w := WakeAll(s.threads, now);
    w[s.cur := w[s.cur].(ticks := n)]
  }

  lemma SlicedKeeps(s: Cpu, now: nat, n: nat)
    requires Inv(s) && 1 <= n <= SLICE
    ensures Inv(s.(threads := Sliced(s, now, n))) && Sliced(s, now, n).Keys == s.threads.Keys
    ensures forall t :: IsReady(Demote(s.threads, s.cur), t) ==> IsReady(Demote(Sliced(s, now, n), s.cur), t)
  {
  }

  /** timer_handler: one tick of the slice, and a schedule when the slice is used up */
  ghost predicate Tick(s: Cpu, now: nat, s': Cpu) {
    && s.cur in s.threads
    && var left := s.threads[s.cur].ticks - 1;
       if left == 0
       then Schedule(s.(threads := Sliced(s, now, SLICE)), s')
       else left > 0 && s' == s.(threads := Sliced(s, now, left))
  }

  datatype Event =
    | TimerTick(now: nat)        // timer_handler
    | Yield                      // int $50
    | Stop(state: State, wake: nat) // the current thread blocks, sleeps or exits, before it yields
    | Unblock(t: nat)            // mutex_release wakes a thread
    | Reap(z: nat)               // the reaper unlinks a zombie

  ghost predicate Removed(s: seq<nat>, i: nat, s': seq<nat>) {
    i < |s| && s' == RemoveAt(s, i)
  }

  ghost predicate Next(s: Cpu, e: Event, s': Cpu) {
    match e
    case TimerTick(now) => Tick(s, now, s')
    case Yield => Schedule(s, s')
    case Stop(st, wake) =>
      && s.cur in s.threads && (st == Blocked || st == Sleeping || st == Zombie)
      && s' == s.(threads := s.threads[s.cur := s.threads[s.cur].(state := st, wake := wake)])
    case Unblock(t) =>
      && t in s.threads && s.threads[t].state == Blocked
      && s' == s.(threads := s.threads[t := s.threads[t].(state := Ready)])
    case Reap(z) =>
      && z in s.threads && s.threads[z].state == Zombie && z != s.cur
      && s'.threads == s.threads - {z} && s'.cur == s.cur
      && exists i: nat :: Removed(s.ring, i, s'.ring) && s.ring[i] == z
  }

  // ----- what every event keeps -----

  lemma AfterMember(ring: seq<nat>, c: nat, t: nat)
    requires c < |ring|
    ensures t in After(ring, c) <==> t in ring
  {
    assert ring == ring[..c + 1] + ring[c + 1..];
  }

  lemma ScheduleKeeps(s: Cpu, s': Cpu)
    requires Inv(s) && Schedule(s, s')
    ensures Inv(s')
  {
    var c: nat, r: nat :| Scheduled(s, s', c, r);
    AfterMember(s.ring, c, s'.cur);
  }

  lemma LeastReady(order: seq<nat>, threads: map<nat, Thread>, t: nat) returns (r: nat)
    requires t in order && IsReady(threads, t)
    ensures FirstReady(order, threads, r)
  {
    r := 0;
    while !IsReady(threads, order[r])
      invariant r < |order| && forall i: nat | i < r :: !IsReady(threads, order[i])
      invariant t in order[r..]
      decreases |order| - r
    {
      assert order[r..] == [order[r]] + order[r + 1..];
      r := r + 1;
    }
  }

  /** A schedule exists exactly when some thread is ready once the current one is demoted; it picks one thread only. */
  lemma ScheduleIffReady(s: Cpu)
    requires Wf(s)
    ensures (exists s' :: Schedule(s, s')) <==> exists t :: t in s.ring && IsReady(Demote(s.threads, s.cur), t)
  {
    var d := Demote(s.threads, s.cur);
    if s' :| Schedule(s, s') {
      var c: nat, r: nat :| Scheduled(s, s', c, r);
      AfterMember(s.ring, c, After(s.ring, c)[r]);
    }
    if t :| t in s.ring && IsReady(d, t) {
      var c: nat :| c < |s.ring| && s.ring[c] == s.cur;
      AfterMember(s.ring, c, t);
      var r := LeastReady(After(s.ring, c), d, t);
      var next := After(s.ring, c)[r];
      var s' := Cpu(s.ring, d[next := d[next].(state := Running)], next);
      assert Scheduled(s, s', c, r);
      assert Schedule(s, s');
    }
  }

  lemma ScheduleUnique(s: Cpu, a: Cpu, b: Cpu)
    requires Wf(s) && Schedule(s, a) && Schedule(s, b)
    ensures a == b
  {
    var c: nat, r: nat :| Scheduled(s, a, c, r);
    var c': nat, r': nat :| Scheduled(s, b, c', r');
    assert c == c' && r == r';
  }

  lemma RemovedMembers(s: seq<nat>, i: nat, s': seq<nat>)
    requires Removed(s, i, s') && Distinct(s)
    ensures Distinct(s') && forall t :: t in s' <==> t in s && t != s[i]
  {
    forall t ensures t in s' <==> t in s && t != s[i] {
      if t in s && t != s[i] {
        var j: nat :| j < |s| && s[j] == t;
        assert s'[if j < i then j else j - 1] == t;
      }
    }
  }

  /** In every run only the current thread is running and slices stay within bounds. */
  lemma NextKeeps(s: Cpu, e: Event, s': Cpu)
    requires Inv(s) && Next(s, e, s')
    ensures Inv(s')
  {
    match e
    case TimerTick(now) =>
      var left := s.threads[s.cur].ticks - 1;
      SlicedKeeps(s, now, if left == 0 then SLICE else left);
      if left == 0 { ScheduleKeeps(s.(threads := Sliced(s, now, SLICE)), s'); }
    case Yield => ScheduleKeeps(s, s');
    case Reap(z) =>
      var i: nat :| Removed(s.ring, i, s'.ring) && s.ring[i] == z;
      RemovedMembers(s.ring, i, s'.ring);
    case _ =>
  }

  // ----- bounded waiting -----

  /** How many ring places the thread at position p is behind the one at c: 1 to |ring| - 1 */
  function Distance(n: nat, c: nat, p: nat): (d: int) {
    if p > c then p - c else p + n - c
  }

  /** Ticks that can pass before the thread at p runs, with the one at c current */
  ghost function Budget(s: Cpu, c: nat, p: nat): (b: int)
    requires c < |s.ring| && s.ring[c] in s.threads
  {
    SLICE * (Distance(|s.ring|, c, p) - 1) + s.threads[s.ring[c]].ticks
  }

  /** w stands ready at position p and the current thread at position c. */
  ghost predicate Waits(s: Cpu, w: nat, c: nat, p: nat) {
    && c < |s.ring| && p < |s.ring| && s.ring[c] == s.cur && s.ring[p] == w && w != s.cur
    && IsReady(s.threads, w)
  }

  lemma AfterAt(ring: seq<nat>, c: nat, p: nat)
    requires c < |ring| && p < |ring| && p != c
    ensures 1 <= Distance(|ring|, c, p) < |ring| == |After(ring, c)|
    ensures After(ring, c)[Distance(|ring|, c, p) - 1] == ring[p]
  {
  }

  lemma AfterPosition(ring: seq<nat>, c: nat, r: nat) returns (p: nat)
    requires c < |ring| && r < |ring|
    ensures p < |ring| && ring[p] == After(ring, c)[r] && Distance(|ring|, c, p) == r + 1
  {
    p := if c + 1 + r < |ring| then c + 1 + r else c + 1 + r - |ring|;
  }

  /** A schedule that does not pick w brings the current thread strictly closer to w. */
  lemma ScheduleCloser(s: Cpu, s': Cpu, w: nat, c: nat, p: nat) returns (c': nat)
    requires Inv(s) && Waits(s, w, c, p) && Schedule(s, s') && s'.cur != w
    ensures Waits(s', w, c', p) && Distance(|s'.ring|, c', p) < Distance(|s.ring|, c, p)
  {
    var k: nat, r: nat :| Scheduled(s, s', k, r);
    assert k == c;
    AfterAt(s.ring, c, p);
    var d := Distance(|s.ring|, c, p);
    assert r < d - 1;
    c' := AfterPosition(s.ring, c, r);
  }

  lemma TickShrinks(s: Cpu, now: nat, s': Cpu, w: nat, c: nat, p: nat) returns (c': nat)
    requires Inv(s) && Waits(s, w, c, p) && Tick(s, now, s') && w != s'.cur
    ensures Waits(s', w, c', p) && |s'.ring| == |s.ring| && s'.cur in s'.threads
    ensures s'.threads[s'.cur].ticks <= SLICE ==> Budget(s', c', p) < Budget(s, c, p)
  {
    if s.threads[s.cur].ticks == 1 {
      SlicedKeeps(s, now, SLICE);
      c' := ScheduleCloser(s.(threads := Sliced(s, now, SLICE)), s', w, c, p);
    } else {
      c' := c;
    }
  }

  lemma ReapShrinks(s: Cpu, s': Cpu, i: nat, w: nat, c: nat, p: nat) returns (c': nat, p': nat)
    requires Inv(s) && Waits(s, w, c, p) && Removed(s.ring, i, s'.ring) && s.ring[i] != w && s.ring[i] != s.cur
    requires s'.threads == s.threads - {s.ring[i]} && s'.cur == s.cur
    ensures Waits(s', w, c', p') && |s'.ring| <= |s.ring|
    ensures Distance(|s'.ring|, c', p') <= Distance(|s.ring|, c, p)
  {
    c' := if c < i then c else c - 1;
    p' := if p < i then p else p - 1;
  }

  /** A tick or a yield that leaves w waiting uses up budget; nothing else adds any. */
  lemma BudgetShrinks(s: Cpu, e: Event, s': Cpu, w: nat, c: nat, p: nat) returns (c': nat, p': nat)
    requires Inv(s) && Waits(s, w, c, p) && Next(s, e, s') && w in s'.ring && w != s'.cur && IsReady(s'.threads, w)
    ensures Waits(s', w, c', p') && s'.ring[c'] in s'.threads && |s'.ring| <= |s.ring|
    ensures Budget(s', c', p') <= Budget(s, c, p) - (if e.TimerTick? || e.Yield? then 1 else 0)
  {
    NextKeeps(s, e, s');
    c', p' := c, p;
    match e
    case TimerTick(now) =>
      c' := TickShrinks(s, now, s', w, c, p);
    case Yield =>
      c' := ScheduleCloser(s, s', w, c, p);
    case Reap(z) =>
      var i: nat :| Removed(s.ring, i, s'.ring) && s.ring[i] == z;
      c', p' := ReapShrinks(s, s', i, w, c, p);
    case _ =>
  }

  ghost predicate Run(states: seq<Cpu>, events: seq<Event>) {
    && |states| == |events| + 1
    && forall i | 0 <= i < |events| :: Next(states[i], events[i], states[i + 1])
  }

  function Turns(events: seq<Event>): (n: nat) {
    if events == [] then 0
    else (if events[0].TimerTick? || events[0].Yield? then 1 else 0) + Turns(events[1..])
  }

  /** w is ready and not running in every state of the run. */
  ghost predicate Starved(states: seq<Cpu>, w: nat) {
    forall i | 0 <= i < |states| :: w in states[i].ring && w != states[i].cur && IsReady(states[i].threads, w)
  }

  lemma {:induction false} BudgetBoundsTurns(states: seq<Cpu>, events: seq<Event>, w: nat, c: nat, p: nat)
    requires Run(states, events) && Inv(states[0]) && Starved(states, w) && Waits(states[0], w, c, p)
    ensures Turns(events) < Budget(states[0], c, p)
    decreases |events|
  {
    if events == [] {
      AfterAt(states[0].ring, c, p);
    } else {
      assert Next(states[0], events[0], states[1]);
      NextKeeps(states[0], events[0], states[1]);
      var c', p' := BudgetShrinks(states[0], events[0], states[1], w, c, p);
      var rest, es := states[1..], events[1..];
      forall i | 0 <= i < |es| ensures Next(rest[i], es[i], rest[i + 1]) {
        assert Next(states[i + 1], events[i + 1], states[i + 2]);
      }
      BudgetBoundsTurns(rest, es, w, c', p');
    }
  }

  /**
   Bounded waiting. In a run without thread creation, a thread that stays ready without running sees
   fewer than 4 * (N - 1) timer ticks and yields, N being the number of threads at the start.
   */
  lemma BoundedWaiting(states: seq<Cpu>, events: seq<Event>, w: nat)
    requires Run(states, events) && Inv(states[0]) && Starved(states, w)
    ensures Turns(events) < SLICE * (|states[0].ring| - 1)
  {
    var s := states[0];
    assert w in s.ring && s.cur in s.ring;
    var c: nat :| c < |s.ring| && s.ring[c] == s.cur;
    var p: nat :| p < |s.ring| && s.ring[p] == w;
    AfterAt(s.ring, c, p);
    BudgetBoundsTurns(states, events, w, c, p);
  }

  // ----- what a schedule and a tick change -----

  /** The thread at place p is picked with the one at c current: no thread on the way from c to p is ready. */
  ghost predicate Picks(s: Cpu, s': Cpu, c: nat, p: nat) {
    && c < |s.ring| && p < |s.ring| && s.ring[c] == s.cur && s.ring[p] == s'.cur
    && (IsReady(s.threads, s'.cur) || (p == c && s.cur in s.threads && s.threads[s.cur].state == Running))
    && forall q: nat | q < |s.ring| && q != c && Distance(|s.ring|, c, q) < Distance(|s.ring|, c, p) ::
         !IsReady(s.threads, s.ring[q])
  }

  /** A schedule stops the current thread if it was running, starts the picked one and changes nothing else. */
  ghost predicate SwitchOnly(before: map<nat, Thread>, cur: nat, after: map<nat, Thread>, cur': nat) {
    && after.Keys == before.Keys
    && forall t | t in before ::
         && after[t].ticks == before[t].ticks && after[t].wake == before[t].wake
         && after[t].state == if t == cur' then Running
                              else if t == cur && before[t].state == Running then Ready
                              else before[t].state
  }

  lemma ScheduleMeans(s: Cpu, s': Cpu) returns (c: nat, p: nat)
    requires Wf(s) && Schedule(s, s')
    ensures s'.ring == s.ring && Picks(s, s', c, p) && SwitchOnly(s.threads, s.cur, s'.threads, s'.cur)
  {
    var r: nat;
    c, r :| Scheduled(s, s', c, r);
    p := AfterPosition(s.ring, c, r);
    forall q: nat | q < |s.ring| && q != c && Distance(|s.ring|, c, q) < Distance(|s.ring|, c, p)
      ensures !IsReady(s.threads, s.ring[q])
    {
      AfterAt(s.ring, c, q);
    }
  }

  /** The thread sleeps and its time has come. */
  ghost predicate Due(t: Thread, now: nat) {
    t.state == Sleeping && t.wake <= now
  }

  /** Exactly the sleepers whose time has come become ready; nothing else changes. */
  ghost predicate DueWoken(before: map<nat, Thread>, now: nat, after: map<nat, Thread>) {
    && after.Keys == before.Keys
    && forall t | t in before ::
         if Due(before[t], now) then after[t] == Thread(Ready, before[t].ticks, 0) else after[t] == before[t]
  }

  /** What a tick does to every thread: due sleepers wake, and only the current thread uses up its slice. */
  ghost predicate TickEffect(s: Cpu, now: nat, s': Cpu) {
    && s'.ring == s.ring && s'.threads.Keys == s.threads.Keys && s.cur in s.threads
    && (s.threads[s.cur].ticks > 1 ==> s'.cur == s.cur)
    && forall t | t in s.threads ::
         && s'.threads[t].wake == (if Due(s.threads[t], now) then 0 else s.threads[t].wake)
         && s'.threads[t].ticks == (if t != s.cur then s.threads[t].ticks
                                    else if s.threads[t].ticks == 1 then SLICE else s.threads[t].ticks - 1)
         && (s'.threads[t].state == Sleeping <==> s.threads[t].state == Sleeping && now < s.threads[t].wake)
         && (Due(s.threads[t], now) ==> s'.threads[t].state == Ready || (t == s'.cur && s'.threads[t].state == Running))
         && (s.threads[s.cur].ticks > 1 && !Due(s.threads[t], now) ==> s'.threads[t].state == s.threads[t].state)
  }

  lemma TickMeans(s: Cpu, now: nat, s': Cpu)
    requires Inv(s) && Tick(s, now, s')
    ensures TickEffect(s, now, s')
  {
    if s.threads[s.cur].ticks == 1 {
      SlicedKeeps(s, now, SLICE);
      var c, p := ScheduleMeans(s.(threads := Sliced(s, now, SLICE)), s');
    }
  }

  // ----- sleeping -----

  ghost predicate Asleep(s: Cpu, t: nat, w: nat) {
    t in s.ring && t in s.threads && s.threads[t].state == Sleeping && s.threads[t].wake == w
  }

  lemma ScheduleAsleep(s: Cpu, s': Cpu, t: nat, w: nat)
    requires Wf(s) && Schedule(s, s') && Asleep(s, t, w)
    ensures Asleep(s', t, w) && s'.cur != t
  {
    var c, p := ScheduleMeans(s, s');
  }

  /** Until its time has come nothing wakes a sleeper, and once it has yielded it does not run. */
  lemma AsleepStep(s: Cpu, e: Event, s': Cpu, t: nat, w: nat)
    requires Inv(s) && Next(s, e, s') && Asleep(s, t, w) && !(e.Stop? && s.cur == t)
    requires e.TimerTick? ==> e.now < w
    ensures Asleep(s', t, w) && (s.cur != t || e.Yield? ==> s'.cur != t)
  {
    match e
    case TimerTick(now) =>
      if s.threads[s.cur].ticks == 1 {
        SlicedKeeps(s, now, SLICE);
        ScheduleAsleep(s.(threads := Sliced(s, now, SLICE)), s', t, w);
      }
    case Yield => ScheduleAsleep(s, s', t, w);
    case Reap(z) =>
      var i: nat :| Removed(s.ring, i, s'.ring) && s.ring[i] == z;
      RemovedMembers(s.ring, i, s'.ring);
    case _ =>
  }

  /** The thread is asleep in every state of the run. */
  ghost predicate SleepsThrough(states: seq<Cpu>, t: nat, w: nat) {
    forall i | 0 <= i < |states| :: Asleep(states[i], t, w)
  }

  ghost predicate TicksBefore(events: seq<Event>, w: nat) {
    forall i | 0 <= i < |events| && events[i].TimerTick? :: events[i].now < w
  }

  /** The thread goes to sleep and does nothing further but yield. */
  ghost predicate OnlyYields(states: seq<Cpu>, events: seq<Event>, t: nat)
    requires |states| == |events| + 1
  {
    forall i | 0 <= i < |events| && events[i].Stop? :: states[i].cur != t
  }

  lemma RunTail(states: seq<Cpu>, events: seq<Event>)
    requires Run(states, events) && events != []
    ensures Run(states[1..], events[1..]) && Next(states[0], events[0], states[1])
  {
    forall i | 0 <= i < |events[1..]| ensures Next(states[1..][i], events[1..][i], states[1..][i + 1]) {
      assert Next(states[i + 1], events[i + 1], states[i + 2]);
    }
    assert Next(states[0], events[0], states[0 + 1]);
  }

  /**
   A sleeper is woken by the first tick at or after its time and by nothing else: it sleeps through a run if and only
   if all ticks of the run come before its time.
   */
  lemma {:induction false} SleepsExactly(states: seq<Cpu>, events: seq<Event>, t: nat, w: nat)
    requires Run(states, events) && Inv(states[0]) && Asleep(states[0], t, w) && OnlyYields(states, events, t)
    ensures SleepsThrough(states, t, w) <==> TicksBefore(events, w)
    decreases |events|
  {
    if events != [] {
      var s, e, s' := states[0], events[0], states[1];
      RunTail(states, events);
      NextKeeps(s, e, s');
      if e.TimerTick? && w <= e.now {
        TickMeans(s, e.now, s');
        assert !Asleep(states[1], t, w);
      } else {
        AsleepStep(s, e, s', t, w);
        SleepsExactly(states[1..], events[1..], t, w);
        assert SleepsThrough(states, t, w) <==> SleepsThrough(states[1..], t, w) by {
          assert forall i | 0 < i < |states| :: states[i] == states[1..][i - 1];
        }
        assert TicksBefore(events, w) <==> TicksBefore(events[1..], w) by {
          assert forall i | 0 < i < |events| :: events[i] == events[1..][i - 1];
        }
      }
    }
  }

  /** The first tick at or after its time finds the thread asleep and leaves it ready, or already running again. */
  lemma {:induction false} WokenOnTime(states: seq<Cpu>, events: seq<Event>, t: nat, w: nat, k: nat)
    requires Run(states, events) && Inv(states[0]) && Asleep(states[0], t, w) && OnlyYields(states, events, t)
    requires k < |events| && events[k].TimerTick? && w <= events[k].now && TicksBefore(events[..k], w)
    ensures Asleep(states[k], t, w) && t in states[k + 1].ring && t in states[k + 1].threads
    ensures var s := states[k + 1];
            s.threads[t].state == Ready || (s.cur == t && s.threads[t].state == Running)
    decreases k
  {
    RunTail(states, events);
    NextKeeps(states[0], events[0], states[1]);
    if k == 0 {
      TickMeans(states[0], events[0].now, states[1]);
    } else {
      assert events[0] == events[..k][0] && events[1..][..k - 1] == events[..k][1..];
      AsleepStep(states[0], events[0], states[1], t, w);
      WokenOnTime(states[1..], events[1..], t, w, k - 1);
    }
  }

  /** A sleeper that has yielded runs in no state of the run before its time. */
  lemma {:induction false} SleeperNeverRuns(states: seq<Cpu>, events: seq<Event>, t: nat, w: nat)
    requires Run(states, events) && Inv(states[0]) && Asleep(states[0], t, w) && states[0].cur != t
    requires TicksBefore(events, w)
    ensures forall i | 0 <= i < |states| :: states[i].cur != t && Asleep(states[i], t, w)
    decreases |events|
  {
    if events != [] {
      RunTail(states, events);
      NextKeeps(states[0], events[0], states[1]);
      AsleepStep(states[0], events[0], states[1], t, w);
      SleeperNeverRuns(states[1..], events[1..], t, w);
      assert forall i | 0 < i < |states| :: states[i] == states[1..][i - 1];
    }
  }
}
