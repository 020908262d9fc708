/** The scheduler over its two levels of rings: tasks, and the threads of each task. */
module Scheduler {
  import opened RoundRobin
  import opened Seqs
  import Reaper

  /** The threads of all tasks, task by task */
  ghost function Flat(tasks: seq<seq<nat>>): (r: seq<nat>) {
    if tasks == [] then [] else Flat(tasks[..|tasks| - 1]) + tasks[|tasks| - 1]
  }

  /** Where task i starts in the flat order */
  ghost function Off(tasks: seq<seq<nat>>, i: nat): (r: nat)
    requires i <= |tasks|
  {
    |Flat(tasks[..i])|
  }

  lemma {:induction false} FlatPrefix(tasks: seq<seq<nat>>, i: nat)
    requires i <= |tasks|
    ensures Flat(tasks[..i]) <= Flat(tasks)
    decreases |tasks|
  {
    if i < |tasks| {
      var n := |tasks| - 1;
      FlatPrefix(tasks[..n], i);
      assert tasks[..n][..i] == tasks[..i];
    } else {
      assert tasks[..i] == tasks;
    }
  }

  /** Task i occupies the places Off(i) .. Off(i + 1) of the flat order. */
  lemma FlatTask(tasks: seq<seq<nat>>, i: nat)
    requires i < |tasks|
    ensures Off(tasks, i + 1) == Off(tasks, i) + |tasks[i]| <= |Flat(tasks)|
    ensures Flat(tasks)[Off(tasks, i)..Off(tasks, i + 1)] == tasks[i]
    ensures Off(tasks, 0) == 0 && Off(tasks, |tasks|) == |Flat(tasks)|
  {
    assert tasks[..i + 1][..i] == tasks[..i] && tasks[..i + 1][i] == tasks[i];
    assert tasks[..|tasks|] == tasks;
    FlatPrefix(tasks, i + 1);
    var upTo := Flat(tasks[..i + 1]);
    assert upTo == Flat(tasks[..i]) + tasks[i];
    assert Flat(tasks)[Off(tasks, i)..Off(tasks, i + 1)] == upTo[Off(tasks, i)..];
  }

  lemma FlatAt(tasks: seq<seq<nat>>, i: nat, j: nat)
    requires i < |tasks| && j < |tasks[i]|
    ensures Off(tasks, i) + j < |Flat(tasks)| && Flat(tasks)[Off(tasks, i) + j] == tasks[i][j]
  {
    FlatTask(tasks, i);
    assert Flat(tasks)[Off(tasks, i)..Off(tasks, i + 1)][j] == tasks[i][j];
  }

  lemma FlatMembers(tasks: seq<seq<nat>>, i: nat)
    requires i < |tasks|
    ensures forall t | t in tasks[i] :: t in Flat(tasks)
  {
    forall t | t in tasks[i] ensures t in Flat(tasks) {
      var j: nat :| j < |tasks[i]| && tasks[i][j] == t;
      FlatAt(tasks, i, j);
    }
  }

  function IndexOf(s: seq<nat>, x: nat): (i: nat)
    requires x in s
    ensures i < |s| && s[i] == x
  {
    if s[0] == x then 0 else 1 + IndexOf(s[1..], x)
  }

  function Succ(n: nat, i: nat): (r: nat)
    requires i < n
  {
    if i + 1 == n then 0 else i + 1
  }

  /** The search stands at place `c + 1 + v` of the ring, counted past its end once it has wrapped. */
  ghost predicate SearchAt(tasks: seq<seq<nat>>, c: nat, st: nat, j: nat, v: nat, wrapped: bool) {
    && st < |tasks| && (j < |tasks[st]| || (j == 0 && tasks[st] == []))
    && Off(tasks, st) + j + (if wrapped then |Flat(tasks)| else 0) == c + 1 + v
  }

  /** A search place holds the v-th thread behind the current one. */
  lemma SearchThread(tasks: seq<seq<nat>>, c: nat, st: nat, j: nat, v: nat, wrapped: bool)
    requires SearchAt(tasks, c, st, j, v, wrapped) && tasks[st] != [] && c < |Flat(tasks)| && v < |Flat(tasks)|
    ensures tasks[st][j] == After(Flat(tasks), c)[v] && tasks[st][j] in Flat(tasks)
  {
    FlatAt(tasks, st, j);
  }

  /** Running off the end of a task, or skipping an empty one, moves to the head of the next task. */
  lemma NextTask(tasks: seq<seq<nat>>, c: nat, st: nat, v: nat, wrapped: bool)
    requires st < |tasks| && c < |Flat(tasks)| && v < |Flat(tasks)|
    requires Off(tasks, st + 1) + (if wrapped then |Flat(tasks)| else 0) == c + 1 + v
    ensures SearchAt(tasks, c, Succ(|tasks|, st), 0, v, wrapped || st + 1 == |tasks|)
  {
    FlatTask(tasks, st);
    if st + 1 < |tasks| { FlatTask(tasks, st + 1); }
  }

  /** The step from one inspected thread to the next */
  lemma NextThread(tasks: seq<seq<nat>>, c: nat, st: nat, j: nat, v: nat, wrapped: bool)
    requires SearchAt(tasks, c, st, j, v, wrapped) && tasks[st] != [] && c < |Flat(tasks)| && v + 1 < |Flat(tasks)|
    ensures if j + 1 == |tasks[st]|
            then SearchAt(tasks, c, Succ(|tasks|, st), 0, v + 1, wrapped || st + 1 == |tasks|)
            else SearchAt(tasks, c, st, j + 1, v + 1, wrapped)
  {
    FlatTask(tasks, st);
    if j + 1 == |tasks[st]| { NextTask(tasks, c, st, v + 1, wrapped); }
  }

  lemma SkipEmpty(tasks: seq<seq<nat>>, c: nat, st: nat, j: nat, v: nat, wrapped: bool)
    requires SearchAt(tasks, c, st, j, v, wrapped) && tasks[st] == [] && c < |Flat(tasks)| && v < |Flat(tasks)|
    ensures SearchAt(tasks, c, Succ(|tasks|, st), 0, v, wrapped || st + 1 == |tasks|)
  {
    FlatTask(tasks, st);
    NextTask(tasks, c, st, v, wrapped);
  }

  /** The search starts directly behind the current thread. */
  lemma SearchStart(tasks: seq<seq<nat>>, st: nat, j: nat)
    requires st < |tasks| && j < |tasks[st]|
    ensures Off(tasks, st) + j < |Flat(tasks)|
    ensures if j + 1 == |tasks[st]|
            then SearchAt(tasks, Off(tasks, st) + j, Succ(|tasks|, st), 0, 0, st + 1 == |tasks|)
            else SearchAt(tasks, Off(tasks, st) + j, st, j + 1, 0, false)
  {
    FlatTask(tasks, st);
    if j + 1 == |tasks[st]| { NextTask(tasks, Off(tasks, st) + j, st, 0, false); }
  }

  /** How many tasks lie between task st and the current one */
  function Gap(n: nat, cur: nat, st: nat): (g: int) {
    if st <= cur then cur - st else cur + n - st
  }

  // ----- the search loop, round by round -----

  /** Where the search stands: a task, and a thread of it unless it has none */
  datatype Place = Place(task: nat, at: nat)

  predicate OnPlace(tasks: seq<seq<nat>>, p: Place) {
    p.task < |tasks| && (p.at < |tasks[p.task]| || (p.at == 0 && tasks[p.task] == []))
  }

  /** The next thread of the task, or the head of the next task */
  function Advance(tasks: seq<seq<nat>>, p: Place): (q: Place)
    requires OnPlace(tasks, p)
    ensures OnPlace(tasks, q)
  {
    if p.at + 1 < |tasks[p.task]| then Place(p.task, p.at + 1) else Place(Succ(|tasks|, p.task), 0)
  }

  predicate AtHome(tasks: seq<seq<nat>>, home: nat, cur: nat, p: Place) {
    OnPlace(tasks, p) && p.task == home && tasks[p.task] != [] && tasks[p.task][p.at] == cur
  }

  /** A round that does not break: back at the current thread the search goes on from the idle thread. */
  function NextRound(tasks: seq<seq<nat>>, home: nat, cur: nat, p: Place): (q: Place)
    requires OnPlace(tasks, p)
    ensures OnPlace(tasks, q)
  {
    var q := Advance(tasks, p);
    if tasks[p.task] != [] && AtHome(tasks, home, cur, q) then Place(0, 0) else q
  }

  /** A round breaks on a ready thread, or back at the current thread when that is ready. */
  ghost predicate Breaks(tasks: seq<seq<nat>>, threads: map<nat, Thread>, home: nat, cur: nat, p: Place) {
    && OnPlace(tasks, p) && tasks[p.task] != []
    && (IsReady(threads, tasks[p.task][p.at]) || (AtHome(tasks, home, cur, Advance(tasks, p)) && IsReady(threads, cur)))
  }

  /** Round k of the search that starts behind the current thread */
  function RoundAt(tasks: seq<seq<nat>>, home: nat, cur: nat, k: nat): (p: Place)
    requires home < |tasks| && cur in tasks[home]
    ensures OnPlace(tasks, p)
  {
    if k == 0 then Advance(tasks, Place(home, IndexOf(tasks[home], cur)))
    else NextRound(tasks, home, cur, RoundAt(tasks, home, cur, k - 1))
  }

  lemma FirstRound(tasks: seq<seq<nat>>, home: nat, cur: nat)
    requires home < |tasks| && cur in tasks[home]
    ensures RoundAt(tasks, home, cur, 0) == Advance(tasks, Place(home, IndexOf(tasks[home], cur)))
  {
  }

  /** What one round of the loop body amounts to */
  lemma RoundNext(tasks: seq<seq<nat>>, threads: map<nat, Thread>, home: nat, cur: nat, k: nat, st: nat, j: nat)
    requires home < |tasks| && cur in tasks[home] && Place(st, j) == RoundAt(tasks, home, cur, k)
    ensures OnPlace(tasks, Place(st, j))
    ensures tasks[st] == [] ==> RoundAt(tasks, home, cur, k + 1) == Place(Succ(|tasks|, st), 0)
    ensures tasks[st] != [] && IsReady(threads, tasks[st][j]) ==>
              Breaks(tasks, threads, home, cur, RoundAt(tasks, home, cur, k))
    ensures tasks[st] != [] ==>
              var q := if j + 1 == |tasks[st]| then Place(Succ(|tasks|, st), 0) else Place(st, j + 1);
              && OnPlace(tasks, q)
              && if q.task == home && tasks[home][q.at] == cur
                 then IsReady(threads, cur) ==> Breaks(tasks, threads, home, cur, RoundAt(tasks, home, cur, k))
                 else RoundAt(tasks, home, cur, k + 1) == q
  {
  }

  /** Without a ready thread no round breaks: the search does not end. */
  lemma SearchRunsOn(tasks: seq<seq<nat>>, threads: map<nat, Thread>, home: nat, cur: nat, k: nat)
    requires home < |tasks| && cur in tasks[home] && forall t | t in Flat(tasks) :: !IsReady(threads, t)
    ensures !Breaks(tasks, threads, home, cur, RoundAt(tasks, home, cur, k))
  {
    var p := RoundAt(tasks, home, cur, k);
    FlatMembers(tasks, p.task);
    FlatMembers(tasks, home);
  }

  class Rings {
    var tasks: seq<seq<nat>>       // task_list; each task lists its threads from its head
    var threads: map<nat, Thread>
    var curTask: nat               // task_current
    var cur: nat                   // thread_current

    ghost function View(): (s: Cpu)
      reads this
    {
      Cpu(Flat(tasks), threads, cur)
    }

    ghost predicate Valid()
      reads this
    {
      && Inv(View())
      && curTask < |tasks| && cur in tasks[curTask]
      && (forall t | t in threads :: t in Flat(tasks))
    }

    /** scheduler_init: the idle task with its idle thread, running */
    constructor (idle: nat)
      ensures Valid() && tasks == [[idle]] && threads == map[idle := Thread(Running, SLICE, 0)] && curTask == 0
      ensures cur == idle
    {
      tasks, threads, curTask, cur := [[idle]], map[idle := Thread(Running, SLICE, 0)], 0, idle;
      new;
      assert tasks[..0] == [] && Flat(tasks) == [idle];
    }

    /** Place of the current thread in the flat order */
    ghost function Here(): (c: nat)
      requires curTask < |tasks| && cur in tasks[curTask]
      reads this
    {
      Off(tasks, curTask) + IndexOf(tasks[curTask], cur)
    }

    /** The search loop of scheduler_schedule. With a ready thread in the rings the idle fallback is not reached. */
    method Search(ghost r: nat) returns (st: nat, j: nat, ghost k: nat)
      requires curTask < |tasks| && cur in tasks[curTask] && (forall t | t in Flat(tasks) :: t in threads)
      requires Distinct(Flat(tasks)) && Here() < |Flat(tasks)| && Flat(tasks)[Here()] == cur
      requires FirstReady(After(Flat(tasks), Here()), threads, r)
      ensures st < |tasks| && j < |tasks[st]| && tasks[st][j] == After(Flat(tasks), Here())[r]
      ensures Breaks(tasks, threads, curTask, cur, RoundAt(tasks, curTask, cur, k))
    {
      hide Flat, Off, After, Distinct, RoundAt, IndexOf, Breaks, NextRound;
      ghost var c, n, v, wrapped := Here(), |Flat(tasks)|, 0, false;
      SearchStart(tasks, curTask, IndexOf(tasks[curTask], cur));
      k := 0;
      FirstRound(tasks, curTask, cur);
      st, j := curTask, IndexOf(tasks[curTask], cur) + 1;
      if j == |tasks[st]| {
        wrapped := st + 1 == |tasks|;
        st, j := Succ(|tasks|, st), 0;
      }
      while true
        invariant SearchAt(tasks, c, st, j, v, wrapped) && v <= r
        invariant Place(st, j) == RoundAt(tasks, curTask, cur, k)
        decreases n - v, Gap(|tasks|, curTask, st)
      {
        RoundNext(tasks, threads, curTask, cur, k, st, j);
        if tasks[st] == [] {
          SkipEmpty(tasks, c, st, j, v, wrapped);
          wrapped := wrapped || st + 1 == |tasks|;
          st, j, k := Succ(|tasks|, st), 0, k + 1;
          continue;
        }
        SearchThread(tasks, c, st, j, v, wrapped);
        if threads[tasks[st][j]].state == Ready { return; }
        NextThread(tasks, c, st, j, v, wrapped);
        v, j := v + 1, j + 1;
        if j == |tasks[st]| {
          wrapped := wrapped || st + 1 == |tasks|;
          st, j := Succ(|tasks|, st), 0;
        }
        if st == curTask && tasks[st][j] == cur {
          BackHome(tasks, c, st, j, v, r, threads, wrapped);
          if threads[cur].state == Ready { return; }
          assert false;
        }
        k := k + 1;
      }
    }

    ghost predicate SomeReady()
      requires cur in threads
      reads this
    {
      exists t :: t in Flat(tasks) && IsReady(Demote(threads, cur), t)
    }

    /** scheduler_schedule */
    method Reschedule()
      requires Valid() && SomeReady()
      modifies `threads, `curTask, `cur
      ensures Valid() && Schedule(old(View()), View())
      ensures exists c: nat, p: nat :: Picks(old(View()), View(), c, p)
      ensures SwitchOnly(old(threads), old(cur), threads, cur)
    {
      hide Flat, Off, After, FirstReady, SwitchOnly, Picks;
      ghost var s := View();
      threads := Demote(threads, cur);
      FlatAt(tasks, curTask, IndexOf(tasks[curTask], cur));
      ghost var c, order := Here(), After(Flat(tasks), Here());
      ghost var t :| t in Flat(tasks) && IsReady(threads, t);
      AfterMember(Flat(tasks), c, t);
      ghost var r := LeastReady(order, threads, t);
      var st, j, k := Search(r);
      FlatAt(tasks, st, j);
      curTask, cur := st, tasks[st][j];
      threads := threads[cur := threads[cur].(state := Running)];
      assert Scheduled(s, View(), c, r);
      ScheduleKeeps(s, View());
      ghost var c', p := ScheduleMeans(s, View());
    }

    /** scheduler_wake_sleeping_threads: the loops over tasks and over the threads of each */
    method WakeSleeping(now: nat)
      requires Valid()
      modifies `threads
      ensures Valid() && threads == WakeAll(old(threads), now) && DueWoken(old(threads), now, threads)
    {
      ghost var before := threads;
      var i := 0;
      while i < |tasks|
        invariant 0 <= i <= |tasks| && threads.Keys == before.Keys
        invariant forall t | t in threads ::
                    threads[t] == if t in Flat(tasks[..i]) then Woken(before[t], now) else before[t]
      {
        FlatMembers(tasks, i);
        WakeTask(i, now, before);
        assert tasks[..i + 1][..i] == tasks[..i];
        i := i + 1;
      }
      assert tasks[..i] == tasks;
    }

    method WakeTask(i: nat, now: nat, ghost before: map<nat, Thread>)
      requires i < |tasks| && threads.Keys == before.Keys && forall t | t in tasks[i] :: t in threads
      requires forall t | t in threads ::
                 threads[t] == if t in Flat(tasks[..i]) then Woken(before[t], now) else before[t]
      modifies `threads
      ensures threads.Keys == before.Keys
      ensures forall t | t in threads ::
                threads[t] == if t in Flat(tasks[..i]) || t in tasks[i] then Woken(before[t], now) else before[t]
    {
      var j := 0;
      while j < |tasks[i]|
        invariant 0 <= j <= |tasks[i]| && threads.Keys == before.Keys
        invariant forall t | t in threads ::
                    threads[t] == if t in Flat(tasks[..i]) || t in tasks[i][..j] then Woken(before[t], now)
                                  else before[t]
      {
        var id := tasks[i][j];
        if threads[id].state == Sleeping && threads[id].wake <= now {
          threads := threads[id := threads[id].(state := Ready, wake := 0)];
        }
        assert tasks[i][..j + 1] == tasks[i][..j] + [id];
        j := j + 1;
      }
      assert tasks[i][..j] == tasks[i];
    }

    /** timer_handler */
    method TimerHandler(now: nat)
      requires Valid()
      requires cur in threads && threads[cur].ticks == 1 ==>
                 exists t :: t in Flat(tasks) && IsReady(Demote(Sliced(View(), now, SLICE), cur), t)
      modifies `threads, `curTask, `cur
      ensures Valid() && Tick(old(View()), now, View()) && TickEffect(old(View()), now, View())
    {
      hide Flat, Inv, Demote, Schedule, TickEffect, SwitchOnly, Picks, DueWoken;
      ghost var s := View();
      CurrentSlice(s);
      SlicedKeeps(s, now, SLICE);
      if threads[cur].ticks > 1 { SlicedKeeps(s, now, threads[cur].ticks - 1); }
      WakeSleeping(now);
      threads := threads[cur := threads[cur].(ticks := threads[cur].ticks - 1)];
      if threads[cur].ticks == 0 {
        threads := threads[cur := threads[cur].(ticks := SLICE)];
        assert threads == Sliced(s, now, SLICE);
        Reschedule();
      }
      TickMeans(s, now, View());
    }

    /** The current thread blocks, goes to sleep or exits; it still runs until it yields. */
    method StopCurrent(st: State, wake: nat)
      requires Valid() && (st == Blocked || st == Sleeping || st == Zombie)
      modifies `threads
      ensures Valid() && Next(old(View()), Stop(st, wake), View())
      ensures cur in old(threads) && threads == old(threads)[cur := Thread(st, old(threads)[cur].ticks, wake)]
    {
      threads := threads[cur := threads[cur].(state := st, wake := wake)];
    }

    /** task_create: an empty task at the end of the task ring, which the scheduler does not see */
    method AddTask()
      requires Valid()
      modifies `tasks
      ensures Valid() && tasks == old(tasks) + [[]] && View() == old(View())
    {
      assert (tasks + [[]])[..|tasks|] == tasks;
      assert Flat(tasks + [[]]) == Flat(tasks);
      tasks := tasks + [[]];
    }

    /** task_create_thread: a new ready thread at the end of the task's ring */
    method AddThread(i: nat, id: nat)
      requires Valid() && i < |tasks| && id !in threads
      modifies `tasks, `threads
      ensures Valid() && tasks == old(tasks)[i := old(tasks)[i] + [id]]
      ensures threads == old(threads)[id := Thread(Ready, SLICE, 0)]
    {
      AddFlat(tasks, i, id);
      threads := threads[id := Thread(Ready, SLICE, 0)];
      tasks := tasks[i := tasks[i] + [id]];
    }

    /** The reaper's scan of one task: from behind the head until the head comes round again */
    method ScanTask(i: nat) returns (k: nat)
      requires i < |tasks| && forall t | t in tasks[i] :: t in threads
      ensures Reaper.FirstEligible(tasks[i], Zombies(threads), k)
    {
      var s := tasks[i];
      if s == [] { return 0; }
      k := if |s| == 1 then 0 else 1;
      while k < |s|
        invariant k <= |s| && forall j: nat | j < k :: !Reaper.Eligible(s, Zombies(threads), j)
      {
        if threads[s[k]].state == Zombie { return; }
        k := k + 1;
      }
    }

    /** One pass of kernel_idle_thread: unlinks at most one thread, a zombie, and keeps the order of the others. */
    method ReapPass() returns (found: bool, z: nat)
      requires Valid() && (cur in threads ==> threads[cur].state != Zombie)
      modifies `tasks, `threads
      ensures Valid()
      ensures !found ==> tasks == old(tasks) && threads == old(threads) && Reaper.Nothing(tasks, Zombies(threads))
      ensures found ==> Reaper.Removes(old(tasks), Zombies(old(threads)), tasks)
      ensures found ==> Next(old(View()), Reap(z), View())
    {
      var i := 0;
      while i < |tasks|
        invariant 0 <= i <= |tasks| && tasks == old(tasks) && threads == old(threads)
        invariant forall j: nat | j < i :: Reaper.FirstEligible(tasks[j], Zombies(threads), |tasks[j]|)
      {
        FlatMembers(tasks, i);
        var k := ScanTask(i);
        if k < |tasks[i]| {
          z := tasks[i][k];
          Unlink(i, k);
          assert Reaper.Pass(old(tasks), Zombies(old(threads)), i, k, tasks);
          return true, z;
        }
        i := i + 1;
      }
      return false, 0;
    }

    method Unlink(i: nat, k: nat)
      requires Valid() && i < |tasks| && k < |tasks[i]| && tasks[i][k] in threads
      requires threads[tasks[i][k]].state == Zombie && tasks[i][k] != cur
      modifies `tasks, `threads
      ensures Valid() && tasks == old(tasks)[i := RemoveAt(old(tasks)[i], k)]
      ensures Next(old(View()), Reap(old(tasks)[i][k]), View())
    {
      hide Flat, Off, Inv, Next, RemoveAt, IndexOf, After;
      SoleRest(tasks[i], k);
      var z := tasks[i][k];
      var rest := if |tasks[i]| == 1 then [] else RemoveAt(tasks[i], k);
      UnlinkStep(View(), tasks, curTask, i, k);
      ghost var s' := Cpu(Flat(tasks[i := rest]), threads - {z}, cur);
      threads := threads - {z};
      tasks := tasks[i := rest];
      assert View() == s';
    }
  }

  lemma SoleRest(s: seq<nat>, k: nat)
    requires k < |s|
    ensures |s| == 1 ==> RemoveAt(s, k) == []
  {
  }

  /** Unlinking thread k of task i, on the flat ring */
  lemma UnlinkStep(s: Cpu, tasks: seq<seq<nat>>, curTask: nat, i: nat, k: nat)
    requires Inv(s) && s.ring == Flat(tasks) && i < |tasks| && k < |tasks[i]|
    requires var z := tasks[i][k]; z in s.threads && s.threads[z].state == Zombie && z != s.cur
    requires curTask < |tasks| && s.cur in tasks[curTask]
    ensures var z, cut := tasks[i][k], tasks[i := RemoveAt(tasks[i], k)];
            var s' := Cpu(Flat(cut), s.threads - {z}, s.cur);
            && Next(s, Reap(z), s') && Inv(s') && s.cur in cut[curTask]
            && ((forall t | t in s.threads :: t in s.ring) ==> forall t | t in s'.threads :: t in s'.ring)
  {
    hide Flat, Off, RemoveAt;
    var z, p, cut := tasks[i][k], Off(tasks, i) + k, tasks[i := RemoveAt(tasks[i], k)];
    CutFlat(tasks, i, k);
    RemovedMembers(s.ring, p, Flat(cut));
    NextKeeps(s, Reap(z), Cpu(Flat(cut), s.threads - {z}, s.cur));
    CutMember(tasks[i], k, s.cur);
  }

  lemma CutMember(s: seq<nat>, k: nat, t: nat)
    requires k < |s| && t != s[k]
    ensures t in s ==> t in RemoveAt(s, k)
  {
    if t in s {
      var j: nat :| j < |s| && s[j] == t;
      assert RemoveAt(s, k)[if j < k then j else j - 1] == t;
    }
  }

  function Zombies(threads: map<nat, Thread>): (r: set<nat>) {
    set t | t in threads && threads[t].state == Zombie
  }

  lemma {:induction false} UpdateFlat(tasks: seq<seq<nat>>, i: nat, s: seq<nat>)
    requires i < |tasks|
    ensures Off(tasks, i) + |tasks[i]| <= |Flat(tasks)|
    ensures Flat(tasks[i := s]) == Flat(tasks)[..Off(tasks, i)] + s + Flat(tasks)[Off(tasks, i) + |tasks[i]|..]
    decreases |tasks|
  {
    var n := |tasks| - 1;
    if i < n {
      UpdateFlat(tasks[..n], i, s);
      assert tasks[i := s][..n] == tasks[..n][i := s] && tasks[..n][..i] == tasks[..i];
    } else {
      assert tasks[i := s][..n] == tasks[..n];
    }
  }

  lemma CutFlat(tasks: seq<seq<nat>>, i: nat, k: nat)
    requires i < |tasks| && k < |tasks[i]|
    ensures Removed(Flat(tasks), Off(tasks, i) + k, Flat(tasks[i := RemoveAt(tasks[i], k)]))
    ensures Flat(tasks)[Off(tasks, i) + k] == tasks[i][k]
  {
    hide Flat, Off, RemoveAt;
    FlatAt(tasks, i, k);
    FlatTask(tasks, i);
    UpdateFlat(tasks, i, RemoveAt(tasks[i], k));
    var f, o := Flat(tasks), Off(tasks, i);
    var a, b := f[..o], f[o + |tasks[i]|..];
    assert f == a + tasks[i] + b;
    CutMiddle(a, tasks[i], b, k);
  }

  lemma CutMiddle(a: seq<nat>, s: seq<nat>, b: seq<nat>, k: nat)
    requires k < |s|
    ensures Removed(a + s + b, |a| + k, a + RemoveAt(s, k) + b)
  {
    var f := a + s + b;
    assert f[..|a| + k] == a + s[..k];
    assert f[|a| + k + 1..] == s[k + 1..] + b;
  }

  lemma AddFlat(tasks: seq<seq<nat>>, i: nat, id: nat)
    requires i < |tasks| && id !in Flat(tasks) && Distinct(Flat(tasks))
    ensures var f := Flat(tasks[i := tasks[i] + [id]]);
            Distinct(f) && forall t :: t in f <==> t in Flat(tasks) || t == id
  {
    FlatTask(tasks, i);
    UpdateFlat(tasks, i, tasks[i] + [id]);
    var f, o := Flat(tasks), Off(tasks, i) + |tasks[i]|;
    assert f[..Off(tasks, i)] + tasks[i] == f[..o];
    assert f == f[..o] + f[o..];
    assert Flat(tasks[i := tasks[i] + [id]]) == f[..o] + [id] + f[o..];
  }

  /** Back at the current thread every other thread has been inspected. */
  lemma BackHome(tasks: seq<seq<nat>>, c: nat, st: nat, j: nat, v: nat, r: nat, threads: map<nat, Thread>,
                 wrapped: bool)
    requires SearchAt(tasks, c, st, j, v, wrapped) && j < |tasks[st]| && v <= r
    requires Distinct(Flat(tasks)) && c < |Flat(tasks)| && tasks[st][j] == Flat(tasks)[c]
    requires FirstReady(After(Flat(tasks), c), threads, r)
    ensures v == |Flat(tasks)| - 1 && r == v && IsReady(threads, tasks[st][j])
    ensures tasks[st][j] == After(Flat(tasks), c)[r]
  {
    FlatAt(tasks, st, j);
    SearchThread(tasks, c, st, j, v, wrapped);
  }
}
